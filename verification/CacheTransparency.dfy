/**
 The cache of one collection over whole runs of calls, cursor reads and compactions. Compaction moves
 versions but does not touch the cache. Exactly when the cache stays invisible across a compaction is
 decided here, and it always does when cursors read current versions only.
 */
module CacheTransparency {
  import opened Bytes
  import opened Records
  import opened LogScan
  import opened Documents
  import opened Payloads
  import opened Operations
  import opened DatabaseState
  import opened Replay
  import opened Calls
  import opened LiveReplay
  import Compaction
  import opened Runs
  import opened LogCompaction
  import opened Backing
  import opened CompactionLoop
  import opened CompactedRuns
  import opened Cache
  import opened Scenarios

  /** A database, and the cache of one of its collections if it is enabled. */
  datatype CachedWorld = CachedWorld(w: World, cache: Option<seq<CacheEntry>>, maxBytes: nat)

  /** `Read` is a cursor's read of a candidate it found earlier. */
  datatype Event =
    | Do(call: Call)
    | CompactNow
    | Read(id: Str, offset: nat)
    | Enable(maxBytes: nat)
    | Disable

  type Sizes = Doc -> nat

  // ---------------------------------------------------------------------------
  // One event
  // ---------------------------------------------------------------------------

  /** A read of the file: the document of the put record at the offset, or an error. */
  function ReadDocument(enc: Encoder, file: seq<byte>, offset: nat): Result<Doc> {
    var op :- DocumentAt(enc, file, offset);
    if op.PutDocument? then Ok(op.document) else Err("Invalid cursor candidate: expected a put document operation.")
  }

  function Hit(cache: Option<seq<CacheEntry>>, id: Str, offset: nat): Option<Doc> {
    if cache.None? then None
    else
      var e := Lookup(cache.value, id);
      if e.Some? && e.value.offset == offset then Some(e.value.document) else None
  }

  function ReadThrough(enc: Encoder, sizeOf: Sizes, s: CachedWorld, id: Str, offset: nat): (CachedWorld, Result<Doc>) {
    var hit := Hit(s.cache, id, offset);
    if hit.Some? then (s.(cache := Some(AfterGet(s.cache.value, id, offset))), Ok(hit.value))
    else
      var document := ReadDocument(enc, s.w.file, offset);
      if document.Err? || s.cache.None? then (s, document)
      else (s.(cache := Some(AfterSet(s.cache.value, CacheEntry(id, document.value, offset, sizeOf(document.value)), s.maxBytes))), document)
  }

  /** A read takes what is cached, or puts what it has read into the cache; without a cache it just reads. */
  lemma ReadFollows(enc: Encoder, sizeOf: Sizes, s: CachedWorld, id: Str, offset: nat)
    requires s.cache.Some? ==> Distinct(s.cache.value)
    ensures var (next, r) := ReadThrough(enc, sizeOf, s, id, offset);
            var found := s.cache.Some? && exists e :: e in s.cache.value && e.id == id && e.offset == offset;
            && next.w == s.w && next.maxBytes == s.maxBytes && (next.cache.Some? <==> s.cache.Some?)
            && (!found ==> r == ReadDocument(enc, s.w.file, offset))
            && (found ==> (exists e :: e in s.cache.value && e.id == id && e.offset == offset && r == Ok(e.document))
                          && Follows(s.cache.value, Got(id, offset), s.maxBytes, next.cache.value))
            && (!found && s.cache.Some? ==>
                  if r.Ok? then Follows(s.cache.value, Put(CacheEntry(id, r.value, offset, sizeOf(r.value))), s.maxBytes, next.cache.value)
                  else next.cache == s.cache)
  {
    hide Lookup, AfterGet, AfterSet, Follows, ReadDocument;
    if s.cache.Some? {
      LookupFinds(s.cache.value, id);
      GetFollows(s.cache.value, id, offset, s.maxBytes);
      var r := ReadDocument(enc, s.w.file, offset);
      if r.Ok? {
        SetFollows(s.cache.value, CacheEntry(id, r.value, offset, sizeOf(r.value)), s.maxBytes);
      }
    }
  }

  /** A document that is written is cached as it is written, one that is deleted is forgotten, and a drop forgets all. */
  lemma ObserveFollows(enc: Encoder, sizeOf: Sizes, cid: CollectionId, maxBytes: nat, r: seq<CacheEntry>, l: Located)
    requires Distinct(r)
    ensures var after := Observe(enc, sizeOf, cid, maxBytes, r, l);
            match Decode(enc, l.record)
            case Ok(PutDocument(c, id, document)) =>
              if c == cid then Follows(r, Put(CacheEntry(id, document, l.offset, sizeOf(document))), maxBytes, after) else after == r
            case Ok(DeleteDocument(c, id)) => if c == cid then Follows(r, Forgot(id), maxBytes, after) else after == r
            case Ok(DropCollection(c)) => if c == cid then after == [] else after == r
            case _ => after == r
  {
    hide Decode, AfterSet, Excluding, Without, PutBehind;
    match Decode(enc, l.record)
    case Ok(PutDocument(c, id, document)) => SetFollows(r, CacheEntry(id, document, l.offset, sizeOf(document)), maxBytes);
    case Ok(DeleteDocument(c, id)) => ExcludingMeans(r, id);
    case _ =>
  }

  /** What the cache makes of an operation of its collection, written at `l.offset`. */
  function Observe(enc: Encoder, sizeOf: Sizes, cid: CollectionId, maxBytes: nat, r: seq<CacheEntry>, l: Located): seq<CacheEntry> {
    match Decode(enc, l.record)
    case Ok(PutDocument(c, id, document)) =>
      if c == cid then AfterSet(r, CacheEntry(id, document, l.offset, sizeOf(document)), maxBytes) else r
    case Ok(DeleteDocument(c, id)) => if c == cid then Excluding(r, id) else r
    case Ok(DropCollection(c)) => if c == cid then [] else r
    case _ => r
  }

  function ObserveAll(enc: Encoder, sizeOf: Sizes, cid: CollectionId, maxBytes: nat, r: seq<CacheEntry>, ls: seq<Located>): seq<CacheEntry> {
    if |ls| == 0 then r
    else Observe(enc, sizeOf, cid, maxBytes, ObserveAll(enc, sizeOf, cid, maxBytes, r, ls[..|ls| - 1]), ls[|ls| - 1])
  }

  /** The memory, and with it the cache, changes after the records are appended, and only if the call does not throw. */
  function AfterCall(enc: Encoder, sizeOf: Sizes, cid: CollectionId, s: CachedWorld, call: Call): CachedWorld {
    var e := EffectOf(enc, s.w, call);
    CachedWorld(After(enc, s.w, call),
                if s.cache.None? || e.thrown then s.cache
                else Some(ObserveAll(enc, sizeOf, cid, s.maxBytes, s.cache.value, Locate(e.records, |s.w.file|))),
                s.maxBytes)
  }

  /** The new state, and for a read its result. An invalid budget is refused. */
  function Step(enc: Encoder, sizeOf: Sizes, cid: CollectionId, s: CachedWorld, ev: Event): (CachedWorld, Option<Result<Doc>>) {
    match ev
    case Do(call) => (AfterCall(enc, sizeOf, cid, s, call), None)
    case CompactNow => (s.(w := Act(enc, s.w, Action.CompactNow)), None)
    case Read(id, offset) =>
      var r := ReadThrough(enc, sizeOf, s, id, offset);
      (r.0, Some(r.1))
    case Enable(maxBytes) =>
      if maxBytes == 0 then (s, None)
      else (CachedWorld(s.w, Some(if s.cache.None? then [] else Trim(s.cache.value, 0, maxBytes)), maxBytes), None)
    case Disable => (s.(cache := None), None)
  }

  /** The same event without a cache. */
  function PlainStep(enc: Encoder, w: World, ev: Event): (World, Option<Result<Doc>>) {
    match ev
    case Do(call) => (After(enc, w, call), None)
    case CompactNow => (Act(enc, w, Action.CompactNow), None)
    case Read(_, offset) => (w, Some(ReadDocument(enc, w.file, offset)))
    case _ => (w, None)
  }

  function Results(enc: Encoder, sizeOf: Sizes, cid: CollectionId, s: CachedWorld, events: seq<Event>): seq<Option<Result<Doc>>>
    decreases |events|
  {
    if |events| == 0 then []
    else
      var step := Step(enc, sizeOf, cid, s, events[0]);
      [step.1] + Results(enc, sizeOf, cid, step.0, events[1..])
  }

  function PlainResults(enc: Encoder, w: World, events: seq<Event>): seq<Option<Result<Doc>>>
    decreases |events|
  {
    if |events| == 0 then []
    else
      var step := PlainStep(enc, w, events[0]);
      [step.1] + PlainResults(enc, step.0, events[1..])
  }

  // ---------------------------------------------------------------------------
  // Caches that cannot mislead
  // ---------------------------------------------------------------------------

  /** The document the record writes under this id of the collection, if it does. */
  function WrittenAt(enc: Encoder, cid: CollectionId, id: Str, l: Located): Option<Doc> {
    match Decode(enc, l.record)
    case Ok(PutDocument(c, i, document)) => if c == cid && i == id then Some(document) else None
    case _ => None
  }

  /** If a version of the entry's document stands at its offset, it is the cached one. */
  predicate TrueEntry(enc: Encoder, cid: CollectionId, ls: seq<Located>, e: CacheEntry) {
    forall l :: l in ls && l.offset == e.offset && WrittenAt(enc, cid, e.id, l).Some? ==> WrittenAt(enc, cid, e.id, l).value == e.document
  }

  predicate TrueEntries(enc: Encoder, cid: CollectionId, ls: seq<Located>, r: seq<CacheEntry>) {
    Distinct(r) && forall e :: e in r ==> TrueEntry(enc, cid, ls, e)
  }

  predicate TrueCache(enc: Encoder, cid: CollectionId, s: CachedWorld) {
    && |s.w.file| >= FILE_HEADER_BYTES
    && (s.cache.Some? ==> TrueEntries(enc, cid, ScanLog(s.w.file).records, s.cache.value))
  }

  /** A version of this document stands at the offset. */
  predicate Candidate(enc: Encoder, cid: CollectionId, file: seq<byte>, id: Str, offset: nat)
    requires |file| >= FILE_HEADER_BYTES
  {
    exists l :: l in ScanLog(file).records && l.offset == offset && WrittenAt(enc, cid, id, l).Some?
  }

  /** No other version of a live document is cached under the offset its current version moves to. */
  predicate NothingShadowed(st: State, cid: CollectionId, mv: map<nat, nat>, r: seq<CacheEntry>) {
    cid in st.collections ==>
      var documents := st.collections[cid].documents;
      forall e :: e in r && e.id in documents && e.offset == Compaction.MovedOffset(mv, documents[e.id].offset) ==> e.document == documents[e.id].document
  }

  /** Where compacting would move the records to. */
  function MovesOf(enc: Encoder, w: World): map<nat, nat>
    requires |w.file| >= FILE_HEADER_BYTES
  {
    Moves(KeptLog(enc, w.db, ScanLog(w.file).records))
  }

  /** Cursors read versions that are in the log; the rest is as for runs without a cache, but for what compaction asks of the cache. */
  ghost predicate Allowed(enc: Encoder, cid: CollectionId, s: CachedWorld, ev: Event)
    requires |s.w.file| >= FILE_HEADER_BYTES
  {
    match ev
    case Do(call) => Reasonable(enc, s.w.db, call)
    case CompactNow => Compactable(enc, s.w) && (s.cache.Some? ==> NothingShadowed(s.w.db, cid, MovesOf(enc, s.w), s.cache.value))
    case Read(id, offset) => Candidate(enc, cid, s.w.file, id, offset)
    case _ => true
  }

  ghost predicate AllowedEvents(enc: Encoder, sizeOf: Sizes, cid: CollectionId, s: CachedWorld, events: seq<Event>)
    decreases |events|
  {
    |events| == 0 ||
    (|s.w.file| >= FILE_HEADER_BYTES && Allowed(enc, cid, s, events[0])
     && AllowedEvents(enc, sizeOf, cid, Step(enc, sizeOf, cid, s, events[0]).0, events[1..]))
  }

  // ---------------------------------------------------------------------------
  // The list operations keep a cache true
  // ---------------------------------------------------------------------------

  lemma AfterSetDistinct(r: seq<CacheEntry>, e: CacheEntry, maxBytes: nat)
    requires Distinct(r)
    ensures Distinct(AfterSet(r, e, maxBytes))
    ensures forall d :: d in AfterSet(r, e, maxBytes) ==> d == e || (d in r && d.id != e.id)
  {
    hide Distinct, Trim, Excluding;
    ExcludingKeeps(r, e.id);
    ExcludingDistinct(r, e.id);
    if e.bytes <= maxBytes {
      TrimBounded(Excluding(r, e.id), e.bytes, maxBytes);
      AppendDistinct(Trim(Excluding(r, e.id), e.bytes, maxBytes), e);
    }
  }

  lemma AfterGetDistinct(r: seq<CacheEntry>, id: Str, offset: nat)
    requires Distinct(r)
    ensures Distinct(AfterGet(r, id, offset)) && forall d :: d in AfterGet(r, id, offset) ==> d in r
  {
    hide Distinct, Excluding, Lookup;
    ExcludingKeeps(r, id);
    ExcludingDistinct(r, id);
    LookupFinds(r, id);
    if Lookup(r, id).Some? {
      AppendDistinct(Excluding(r, id), Lookup(r, id).value);
    }
  }

  /** After an operation an entry is the document it wrote, or an old entry it does not concern. */
  lemma Observed(enc: Encoder, sizeOf: Sizes, cid: CollectionId, maxBytes: nat, r: seq<CacheEntry>, l: Located)
    requires Distinct(r)
    ensures var next := Observe(enc, sizeOf, cid, maxBytes, r, l);
            && Distinct(next)
            && forall e :: e in next ==>
                 || (e.offset == l.offset && WrittenAt(enc, cid, e.id, l) == Some(e.document))
                 || (e in r && WrittenAt(enc, cid, e.id, l).None?
                     && Decode(enc, l.record) != Ok(DeleteDocument(cid, e.id)) && Decode(enc, l.record) != Ok(DropCollection(cid)))
  {
    hide Decode, AfterSet, Distinct, Excluding;
    match Decode(enc, l.record)
    case Ok(PutDocument(c, id, document)) =>
      AfterSetDistinct(r, CacheEntry(id, document, l.offset, sizeOf(document)), maxBytes);
    case Ok(DeleteDocument(c, id)) =>
      ExcludingKeeps(r, id);
      ExcludingDistinct(r, id);
    case _ => EmptyDistinct();
  }

  lemma EmptyDistinct()
    ensures Distinct([])
  {
  }

  lemma ObserveKeepsTrue(enc: Encoder, sizeOf: Sizes, cid: CollectionId, maxBytes: nat, ls: seq<Located>, r: seq<CacheEntry>, l: Located)
    requires TrueEntries(enc, cid, ls, r) && forall m :: m in ls ==> m.offset < l.offset
    ensures TrueEntries(enc, cid, ls + [l], Observe(enc, sizeOf, cid, maxBytes, r, l))
  {
    hide Observe, WrittenAt, Distinct;
    Observed(enc, sizeOf, cid, maxBytes, r, l);
    forall e | e in Observe(enc, sizeOf, cid, maxBytes, r, l)
      ensures TrueEntry(enc, cid, ls + [l], e)
    {
      assert e in r ==> TrueEntry(enc, cid, ls, e);
    }
  }

  lemma {:induction false} ObserveAllKeepsTrue(enc: Encoder, sizeOf: Sizes, cid: CollectionId, maxBytes: nat, ls: seq<Located>, r: seq<CacheEntry>, ms: seq<Located>)
    requires TrueEntries(enc, cid, ls, r) && Increasing(ls + ms)
    ensures TrueEntries(enc, cid, ls + ms, ObserveAll(enc, sizeOf, cid, maxBytes, r, ms))
    decreases |ms|
  {
    hide Observe, TrueEntries, Increasing;
    if |ms| == 0 {
      assert ls + ms == ls;
    } else {
      var n := |ms| - 1;
      assert (ls + ms)[..|ls + ms| - 1] == ls + ms[..n];
      LastIncreases(ls + ms);
      ObserveAllKeepsTrue(enc, sizeOf, cid, maxBytes, ls, r, ms[..n]);
      assert (ls + ms)[|ls + ms| - 1] == ms[n];
      forall m | m in ls + ms[..n]
        ensures m.offset < ms[n].offset
      {
        var i :| 0 <= i < |ls + ms[..n]| && (ls + ms[..n])[i] == m;
        assert (ls + ms)[i] == m;
      }
      ObserveKeepsTrue(enc, sizeOf, cid, maxBytes, ls + ms[..n], ObserveAll(enc, sizeOf, cid, maxBytes, r, ms[..n]), ms[n]);
      assert ls + ms[..n] + [ms[n]] == ls + ms;
    }
  }

  lemma CallKeepsTrue(enc: Encoder, sizeOf: Sizes, cid: CollectionId, s: CachedWorld, call: Call)
    requires Synced(enc, s.w) && Reasonable(enc, s.w.db, call) && TrueCache(enc, cid, s)
    ensures TrueCache(enc, cid, AfterCall(enc, sizeOf, cid, s, call))
  {
    hide Synced, Reasonable, TrueEntries, ScanFrom, ObserveAll, EffectOf, EncodeAll, Locate, Increasing;
    var e := EffectOf(enc, s.w, call);
    CallSynced(enc, s.w, call);
    SyncedLog(enc, s.w);
    ScanAppendAll(s.w.file, e.records);
    LogIncreases(After(enc, s.w, call).file);
    if s.cache.Some? && !e.thrown {
      ObserveAllKeepsTrue(enc, sizeOf, cid, s.maxBytes, ScanLog(s.w.file).records, s.cache.value, Locate(e.records, |s.w.file|));
    }
  }

  /** A version in the log is read from the file. */
  lemma CandidateReads(enc: Encoder, cid: CollectionId, file: seq<byte>, id: Str, offset: nat) returns (l: Located)
    requires |file| >= FILE_HEADER_BYTES && Candidate(enc, cid, file, id, offset)
    ensures l in ScanLog(file).records && l.offset == offset && WrittenAt(enc, cid, id, l).Some?
    ensures ReadDocument(enc, file, offset) == Ok(WrittenAt(enc, cid, id, l).value)
    ensures forall m :: m in ScanLog(file).records && m.offset == offset ==> m == l
  {
    hide Decode, ReadRecord, ScanFrom;
    l :| l in ScanLog(file).records && l.offset == offset && WrittenAt(enc, cid, id, l).Some?;
    RecordsReadable(file, FILE_HEADER_BYTES);
    LogIncreases(file);
  }

  /** A read through a true cache is a read of the file. */
  lemma ReadThroughIsRead(enc: Encoder, sizeOf: Sizes, cid: CollectionId, s: CachedWorld, id: Str, offset: nat)
    requires TrueCache(enc, cid, s) && Candidate(enc, cid, s.w.file, id, offset)
    ensures ReadThrough(enc, sizeOf, s, id, offset).1 == ReadDocument(enc, s.w.file, offset)
    ensures TrueCache(enc, cid, ReadThrough(enc, sizeOf, s, id, offset).0) && ReadThrough(enc, sizeOf, s, id, offset).0.w == s.w
  {
    hide ReadDocument, AfterSet, AfterGet, Lookup, ScanFrom, WrittenAt, Candidate, Distinct;
    var l := CandidateReads(enc, cid, s.w.file, id, offset);
    if s.cache.Some? {
      var document := WrittenAt(enc, cid, id, l).value;
      LookupFinds(s.cache.value, id);
      AfterGetDistinct(s.cache.value, id, offset);
      AfterSetDistinct(s.cache.value, CacheEntry(id, document, offset, sizeOf(document)), s.maxBytes);
      assert Hit(s.cache, id, offset).Some? ==> TrueEntry(enc, cid, ScanLog(s.w.file).records, Lookup(s.cache.value, id).value);
    }
  }

  // ---------------------------------------------------------------------------
  // Across a compaction
  // ---------------------------------------------------------------------------

  /** A put record of the compacted file is the current version of a live document, moved. */
  lemma MovedVersion(enc: Encoder, cid: CollectionId, w: World, l: Located, id: Str)
    requires Synced(enc, w) && l in Relocated(KeptLog(enc, w.db, ScanLog(w.file).records)) && WrittenAt(enc, cid, id, l).Some?
    ensures cid in w.db.collections && id in w.db.collections[cid].documents
    ensures var e := w.db.collections[cid].documents[id];
            l.offset == Compaction.MovedOffset(MovesOf(enc, w), e.offset) && WrittenAt(enc, cid, id, l) == Some(e.document)
  {
    hide Synced, Decode, KeptLog, Relocated, Moves, ScanFrom, Increasing;
    SyncedHeader(enc, w);
    var ls := ScanLog(w.file).records;
    var kl := KeptLog(enc, w.db, ls);
    SyncedCompactible(enc, w);
    LogIncreases(w.file);
    KeptWithin(enc, w.db, ls);
    MovesAreRelocations(kl);
    var i :| 0 <= i < |kl| && Relocated(kl)[i] == l;
    assert kl[i] in kl && KeepRecord(enc, w.db, kl[i]);
    var documents := w.db.collections[cid].documents;
    assert Stands(enc, ls, cid, id, documents[id]);
    var m: Located :| m in ls && m.offset == documents[id].offset && Decode(enc, m.record) == Ok(PutDocument(cid, id, documents[id].document));
    SameOffset(ls, m, kl[i]);
  }

  lemma SameOffset(ls: seq<Located>, l: Located, m: Located)
    requires Increasing(ls) && l in ls && m in ls && l.offset == m.offset
    ensures l == m
  {
  }

  /** Every live document has its record in the compacted file. */
  lemma MovedStands(enc: Encoder, cid: CollectionId, w: World, id: Str) returns (l: Located)
    requires Synced(enc, w) && cid in w.db.collections && id in w.db.collections[cid].documents
    ensures l in Relocated(KeptLog(enc, w.db, ScanLog(w.file).records))
    ensures var e := w.db.collections[cid].documents[id];
            l.offset == Compaction.MovedOffset(MovesOf(enc, w), e.offset) && WrittenAt(enc, cid, id, l) == Some(e.document)
  {
    hide Synced, Decode, KeptLog, Relocated, Moves, ScanFrom, Increasing;
    SyncedHeader(enc, w);
    var ls := ScanLog(w.file).records;
    SyncedCompactible(enc, w);
    LogIncreases(w.file);
    KeptWithin(enc, w.db, ls);
    RelocatedStand(enc, w.db, ls, cid);
    var e := w.db.collections[cid].documents[id];
    var moved := Compaction.MoveDocuments(w.db.collections[cid].documents, MovesOf(enc, w));
    assert id in moved && Stands(enc, Relocated(KeptLog(enc, w.db, ls)), cid, id, moved[id]);
    l :| l in Relocated(KeptLog(enc, w.db, ls)) && l.offset == Compaction.MovedOffset(MovesOf(enc, w), e.offset)
         && Decode(enc, l.record) == Ok(PutDocument(cid, id, e.document));
  }

  /** The cache is true again for the compacted file exactly when nothing was shadowed. */
  lemma TrueAfterExactly(enc: Encoder, cid: CollectionId, w: World, r: seq<CacheEntry>)
    requires Synced(enc, w) && Distinct(r)
    ensures |w.file| >= FILE_HEADER_BYTES && |Compact(enc, w).file| >= FILE_HEADER_BYTES
    ensures TrueEntries(enc, cid, ScanLog(Compact(enc, w).file).records, r) <==> NothingShadowed(w.db, cid, MovesOf(enc, w), r)
  {
    hide Synced, KeptLog, Relocated, Moves, ScanFrom, WrittenAt, Distinct, Compact, Compaction.MovedOffset, MovesOf;
    SyncedHeader(enc, w);
    CompactedOps(enc, w);
    var nl := Relocated(KeptLog(enc, w.db, ScanLog(w.file).records));
    if NothingShadowed(w.db, cid, MovesOf(enc, w), r) {
      forall e, l | e in r && l in nl && l.offset == e.offset && WrittenAt(enc, cid, e.id, l).Some?
        ensures WrittenAt(enc, cid, e.id, l).value == e.document
      {
        MovedVersion(enc, cid, w, l, e.id);
      }
    }
    if TrueEntries(enc, cid, nl, r) && cid in w.db.collections {
      var documents := w.db.collections[cid].documents;
      forall e | e in r && e.id in documents && e.offset == Compaction.MovedOffset(MovesOf(enc, w), documents[e.id].offset)
        ensures e.document == documents[e.id].document
      {
        var l := MovedStands(enc, cid, w, e.id);
        assert TrueEntry(enc, cid, nl, e);
      }
    }
  }

  /** After the compaction, every read of a live document gives that document. */
  predicate ServesCurrent(enc: Encoder, sizeOf: Sizes, cid: CollectionId, w: World, r: seq<CacheEntry>, maxBytes: nat)
    requires |w.file| >= FILE_HEADER_BYTES
  {
    cid in w.db.collections ==>
      forall id :: id in w.db.collections[cid].documents ==>
        ReadThrough(enc, sizeOf, CachedWorld(Compact(enc, w), Some(r), maxBytes), id, Compaction.MovedOffset(MovesOf(enc, w), w.db.collections[cid].documents[id].offset)).1
        == Ok(w.db.collections[cid].documents[id].document)
  }

  lemma MovedRead(enc: Encoder, sizeOf: Sizes, cid: CollectionId, w: World, r: seq<CacheEntry>, maxBytes: nat, id: Str)
    requires Synced(enc, w) && cid in w.db.collections && id in w.db.collections[cid].documents
    ensures |w.file| >= FILE_HEADER_BYTES
    ensures var e := w.db.collections[cid].documents[id];
            var to := Compaction.MovedOffset(MovesOf(enc, w), e.offset);
            && ReadDocument(enc, Compact(enc, w).file, to) == Ok(e.document)
            && ReadThrough(enc, sizeOf, CachedWorld(Compact(enc, w), Some(r), maxBytes), id, to).1
               == Ok(if Hit(Some(r), id, to).Some? then Hit(Some(r), id, to).value else e.document)
  {
    hide Synced, KeptLog, Relocated, Moves, ScanFrom, WrittenAt, Compact, Compaction.MovedOffset, MovesOf, Hit, AfterGet, AfterSet, ReadDocument;
    SyncedHeader(enc, w);
    CompactedOps(enc, w);
    var l := MovedStands(enc, cid, w, id);
    assert Candidate(enc, cid, Compact(enc, w).file, id, l.offset);
    var m := CandidateReads(enc, cid, Compact(enc, w).file, id, l.offset);
    assert m == l;
  }

  /** Reads stay right exactly when nothing was shadowed. */
  lemma ServesCurrentExactly(enc: Encoder, sizeOf: Sizes, cid: CollectionId, w: World, r: seq<CacheEntry>, maxBytes: nat)
    requires Synced(enc, w) && Distinct(r)
    ensures |w.file| >= FILE_HEADER_BYTES
    ensures ServesCurrent(enc, sizeOf, cid, w, r, maxBytes) <==> NothingShadowed(w.db, cid, MovesOf(enc, w), r)
  {
    hide Synced, ReadThrough, Compact, Compaction.MovedOffset, MovesOf, Lookup;
    SyncedHeader(enc, w);
    if cid in w.db.collections {
      var documents := w.db.collections[cid].documents;
      forall id | id in documents
        ensures var to := Compaction.MovedOffset(MovesOf(enc, w), documents[id].offset);
                ReadThrough(enc, sizeOf, CachedWorld(Compact(enc, w), Some(r), maxBytes), id, to).1
                == Ok(if Hit(Some(r), id, to).Some? then Hit(Some(r), id, to).value else documents[id].document)
      {
        MovedRead(enc, sizeOf, cid, w, r, maxBytes, id);
      }
      HitsAre(documents, MovesOf(enc, w), r);
    }
  }

  lemma HitsAre(documents: map<Str, Entry>, mv: map<nat, nat>, r: seq<CacheEntry>)
    requires Distinct(r)
    ensures (forall id :: id in documents ==>
               var to := Compaction.MovedOffset(mv, documents[id].offset);
               Hit(Some(r), id, to).Some? ==> Hit(Some(r), id, to).value == documents[id].document)
       <==> forall e :: e in r && e.id in documents && e.offset == Compaction.MovedOffset(mv, documents[e.id].offset) ==> e.document == documents[e.id].document
  {
    hide Distinct, Lookup, Compaction.MovedOffset;
    forall id | id in documents
      ensures Lookup(r, id).Some? ==> Lookup(r, id).value in r && Lookup(r, id).value.id == id
    {
      LookupFinds(r, id);
    }
    forall e | e in r
      ensures Lookup(r, e.id) == Some(e)
    {
      LookupFinds(r, e.id);
    }
  }

  // ---------------------------------------------------------------------------
  // Whole runs
  // ---------------------------------------------------------------------------

  lemma StepKeepsSynced(enc: Encoder, sizeOf: Sizes, cid: CollectionId, s: CachedWorld, ev: Event)
    requires Synced(enc, s.w) && |s.w.file| >= FILE_HEADER_BYTES && Allowed(enc, cid, s, ev)
    ensures Synced(enc, Step(enc, sizeOf, cid, s, ev).0.w) && Step(enc, sizeOf, cid, s, ev).0.w == PlainStep(enc, s.w, ev).0
  {
    hide Synced, Reasonable, Compactable, Act, After, ReadDocument, AfterGet, AfterSet, ObserveAll, EffectOf, Candidate;
    match ev
    case Do(call) => CallSynced(enc, s.w, call);
    case CompactNow => ActSynced(enc, s.w, Action.CompactNow);
    case _ =>
  }

  lemma StepKeepsTrue(enc: Encoder, sizeOf: Sizes, cid: CollectionId, s: CachedWorld, ev: Event)
    requires Synced(enc, s.w) && TrueCache(enc, cid, s) && Allowed(enc, cid, s, ev)
    ensures TrueCache(enc, cid, Step(enc, sizeOf, cid, s, ev).0)
    ensures Step(enc, sizeOf, cid, s, ev).1 == PlainStep(enc, s.w, ev).1
  {
    hide Synced, Reasonable, ReadThrough, ReadDocument, AfterCall, ScanFrom, Trim, TrueEntry, Compact, Candidate, After, NothingShadowed;
    match ev
    case Do(call) => CallKeepsTrue(enc, sizeOf, cid, s, call);
    case CompactNow =>
      HeaderKept(enc, s.w);
      if s.cache.Some? {
        TrueAfterExactly(enc, cid, s.w, s.cache.value);
      }
    case Read(id, offset) => ReadThroughIsRead(enc, sizeOf, cid, s, id, offset);
    case Enable(maxBytes) =>
      if s.cache.Some? {
        TrimBounded(s.cache.value, 0, maxBytes);
      }
    case Disable =>
  }

  /** Every run reads the same with the cache as without it. */
  lemma {:induction false} CacheIsTransparent(enc: Encoder, sizeOf: Sizes, cid: CollectionId, s: CachedWorld, events: seq<Event>)
    requires Synced(enc, s.w) && TrueCache(enc, cid, s) && AllowedEvents(enc, sizeOf, cid, s, events)
    ensures Results(enc, sizeOf, cid, s, events) == PlainResults(enc, s.w, events)
    decreases |events|
  {
    hide Synced, TrueCache, Step, PlainStep, Allowed;
    if |events| > 0 {
      StepKeepsSynced(enc, sizeOf, cid, s, events[0]);
      StepKeepsTrue(enc, sizeOf, cid, s, events[0]);
      CacheIsTransparent(enc, sizeOf, cid, Step(enc, sizeOf, cid, s, events[0]).0, events[1..]);
    }
  }

  // ---------------------------------------------------------------------------
  // Reads of current versions only
  // ---------------------------------------------------------------------------

  /** What is cached of a live document is the document as it is, under whatever offset. */
  predicate Fresh(st: State, cid: CollectionId, r: seq<CacheEntry>) {
    cid in st.collections ==>
      forall e :: e in r && e.id in st.collections[cid].documents ==> e.document == st.collections[cid].documents[e.id].document
  }

  predicate FreshCache(cid: CollectionId, s: CachedWorld) {
    s.cache.Some? ==> Distinct(s.cache.value) && Fresh(s.w.db, cid, s.cache.value)
  }

  lemma ObserveKeepsFresh(enc: Encoder, sizeOf: Sizes, cid: CollectionId, maxBytes: nat, st: State, r: seq<CacheEntry>, l: Located)
    requires Distinct(r) && Fresh(st, cid, r) && ApplyRecord(enc, st, l).Ok?
    ensures Distinct(Observe(enc, sizeOf, cid, maxBytes, r, l)) && Fresh(ApplyRecord(enc, st, l).value, cid, Observe(enc, sizeOf, cid, maxBytes, r, l))
  {
    hide Decode, Observe, Distinct, Apply;
    Observed(enc, sizeOf, cid, maxBytes, r, l);
    var next := ApplyRecord(enc, st, l).value;
    if cid in next.collections {
      forall e | e in Observe(enc, sizeOf, cid, maxBytes, r, l) && e.id in next.collections[cid].documents
        ensures e.document == next.collections[cid].documents[e.id].document
      {
        DocumentAfter(st, Decode(enc, l.record).value, l.offset, cid, e.id);
      }
    }
  }

  /** A document is the one the operation puts, or as it was. */
  lemma DocumentAfter(st: State, op: Operation, offset: nat, cid: CollectionId, id: Str)
    requires Apply(st, op, offset).Ok?
    requires cid in Apply(st, op, offset).value.collections && id in Apply(st, op, offset).value.collections[cid].documents
    ensures var document := Apply(st, op, offset).value.collections[cid].documents[id].document;
            if op.PutDocument? && op.collectionId == cid && op.id == id then document == op.document
            else cid in st.collections && id in st.collections[cid].documents && document == st.collections[cid].documents[id].document
  {
    hide PutInto, RemoveFrom, CreateIndexIn, DropIndexIn;
    match op
    case PutDocument(c, i, document) => DocumentsOnly(st.collections[c], i, Entry(offset, document));
    case DeleteDocument(c, i) => DocumentsOnly(st.collections[c], i, Entry(0, []));
    case CreateIndex(c, field, kind, unique) => DefinitionsOnly(st.collections[c], field, kind, unique);
    case DropIndex(c, field) => DefinitionsOnly(st.collections[c], field, Strings, false);
    case _ =>
  }

  lemma DocumentsOnly(c: Collection, id: Str, e: Entry)
    ensures PutInto(c, id, e).documents == c.documents[id := e] && RemoveFrom(c, id).documents == c.documents - {id}
  {
  }

  lemma DefinitionsOnly(c: Collection, field: Str, kind: IndexKind, unique: bool)
    ensures CreateIndexIn(c, field, kind, unique).Ok? ==> CreateIndexIn(c, field, kind, unique).value.documents == c.documents
    ensures DropIndexIn(c, field).Ok? ==> DropIndexIn(c, field).value.documents == c.documents
  {
    hide Refile, HasDuplicate;
  }

  lemma {:induction false} ObserveAllKeepsFresh(enc: Encoder, sizeOf: Sizes, cid: CollectionId, maxBytes: nat, st: State, r: seq<CacheEntry>, ls: seq<Located>)
    requires Distinct(r) && Fresh(st, cid, r) && ApplyAll(enc, st, ls).Ok?
    ensures Distinct(ObserveAll(enc, sizeOf, cid, maxBytes, r, ls)) && Fresh(ApplyAll(enc, st, ls).value, cid, ObserveAll(enc, sizeOf, cid, maxBytes, r, ls))
    decreases |ls|
  {
    hide Observe, Fresh, Distinct, ApplyRecord;
    if |ls| > 0 {
      var n := |ls| - 1;
      ObserveAllKeepsFresh(enc, sizeOf, cid, maxBytes, st, r, ls[..n]);
      ObserveKeepsFresh(enc, sizeOf, cid, maxBytes, ApplyAll(enc, st, ls[..n]).value, ObserveAll(enc, sizeOf, cid, maxBytes, r, ls[..n]), ls[n]);
    }
  }

  /** The cache ignores markers. */
  lemma {:induction false} ObserveUnmarked(enc: Encoder, sizeOf: Sizes, cid: CollectionId, maxBytes: nat, r: seq<CacheEntry>, ls: seq<Located>)
    ensures ObserveAll(enc, sizeOf, cid, maxBytes, r, ls) == ObserveAll(enc, sizeOf, cid, maxBytes, r, Unmarked(ls))
    decreases |ls|
  {
    hide Observe, IsMarker;
    if |ls| > 0 {
      var n := |ls| - 1;
      ObserveUnmarked(enc, sizeOf, cid, maxBytes, r, ls[..n]);
      if IsMarker(ls[n]) {
        MarkerUnobserved(enc, sizeOf, cid, maxBytes, ObserveAll(enc, sizeOf, cid, maxBytes, r, ls[..n]), ls[n]);
        assert Unmarked(ls) == Unmarked(ls[..n]);
      } else {
        assert Unmarked(ls)[..|Unmarked(ls)| - 1] == Unmarked(ls[..n]);
      }
    }
  }

  lemma MarkerUnobserved(enc: Encoder, sizeOf: Sizes, cid: CollectionId, maxBytes: nat, r: seq<CacheEntry>, l: Located)
    requires IsMarker(l)
    ensures Observe(enc, sizeOf, cid, maxBytes, r, l) == r
  {
    IdentifiersDiffer(TransactionBegin);
    IdentifiersDiffer(TransactionCommit);
    hide ReadFramed, DecodeCreateIndex;
  }

  lemma CallKeepsFresh(enc: Encoder, sizeOf: Sizes, cid: CollectionId, s: CachedWorld, call: Call)
    requires Synced(enc, s.w) && Reasonable(enc, s.w.db, call) && FreshCache(cid, s)
    ensures FreshCache(cid, AfterCall(enc, sizeOf, cid, s, call))
  {
    hide Synced, Reasonable, ScanFrom, ObserveAll, EffectOf, EncodeAll, Locate, Fresh, Distinct, ReplayFrom, Unmarked, ApplyAll;
    var e := EffectOf(enc, s.w, call);
    CallSynced(enc, s.w, call);
    if s.cache.Some? && !e.thrown {
      var ls := Locate(e.records, |s.w.file|);
      assert ls[..|e.records|] == ls;
      var applied := ReplayIsApply(enc, s.w.db, ls);
      assert applied + [] == applied;
      ObserveUnmarked(enc, sizeOf, cid, s.maxBytes, s.cache.value, ls);
      ObserveAllKeepsFresh(enc, sizeOf, cid, s.maxBytes, s.w.db, s.cache.value, applied);
    }
  }

  /** Reads are of current versions; nothing is asked of the cache. */
  ghost predicate ReadsCurrent(enc: Encoder, cid: CollectionId, w: World, events: seq<Event>)
    decreases |events|
  {
    |events| == 0 ||
    (&& ReadsCurrent(enc, cid, PlainStep(enc, w, events[0]).0, events[1..])
     && match events[0]
        case Do(call) => Reasonable(enc, w.db, call)
        case CompactNow => Compactable(enc, w)
        case Read(id, offset) => cid in w.db.collections && id in w.db.collections[cid].documents && offset == w.db.collections[cid].documents[id].offset
        case _ => true)
  }

  lemma CurrentIsCandidate(enc: Encoder, cid: CollectionId, w: World, id: Str)
    requires Synced(enc, w) && cid in w.db.collections && id in w.db.collections[cid].documents
    ensures |w.file| >= FILE_HEADER_BYTES && Candidate(enc, cid, w.file, id, w.db.collections[cid].documents[id].offset)
    ensures ReadDocument(enc, w.file, w.db.collections[cid].documents[id].offset) == Ok(w.db.collections[cid].documents[id].document)
  {
    hide Synced, Decode, ScanFrom, DocumentAt;
    SyncedHeader(enc, w);
    SyncedCompactible(enc, w);
    SyncedBacked(enc, w, cid);
    BackedReads(enc, w.file, cid, w.db.collections[cid].documents, id);
    assert Stands(enc, ScanLog(w.file).records, cid, id, w.db.collections[cid].documents[id]);
  }

  lemma FreshNotShadowed(enc: Encoder, cid: CollectionId, s: CachedWorld)
    requires FreshCache(cid, s) && s.cache.Some? && |s.w.file| >= FILE_HEADER_BYTES
    ensures NothingShadowed(s.w.db, cid, MovesOf(enc, s.w), s.cache.value)
    ensures Fresh(Compact(enc, s.w).db, cid, s.cache.value)
  {
    hide Distinct, KeptLog, Postings, CompactedFile;
  }

  lemma ReadKeepsFresh(enc: Encoder, sizeOf: Sizes, cid: CollectionId, s: CachedWorld, id: Str)
    requires Synced(enc, s.w) && FreshCache(cid, s) && cid in s.w.db.collections && id in s.w.db.collections[cid].documents
    ensures FreshCache(cid, ReadThrough(enc, sizeOf, s, id, s.w.db.collections[cid].documents[id].offset).0)
  {
    hide Synced, Distinct, AfterGet, AfterSet, ReadDocument, Lookup;
    var e := s.w.db.collections[cid].documents[id];
    CurrentIsCandidate(enc, cid, s.w, id);
    if s.cache.Some? {
      AfterGetDistinct(s.cache.value, id, e.offset);
      AfterSetDistinct(s.cache.value, CacheEntry(id, e.document, e.offset, sizeOf(e.document)), s.maxBytes);
    }
  }

  lemma FewerFresh(st: State, cid: CollectionId, r: seq<CacheEntry>, fewer: seq<CacheEntry>)
    requires Fresh(st, cid, r) && forall e :: e in fewer ==> e in r
    ensures Fresh(st, cid, fewer)
  {
  }

  lemma StepKeepsFresh(enc: Encoder, sizeOf: Sizes, cid: CollectionId, s: CachedWorld, events: seq<Event>)
    requires Synced(enc, s.w) && TrueCache(enc, cid, s) && FreshCache(cid, s) && |events| > 0 && ReadsCurrent(enc, cid, s.w, events)
    ensures Allowed(enc, cid, s, events[0]) && FreshCache(cid, Step(enc, sizeOf, cid, s, events[0]).0)
  {
    hide Synced, Reasonable, ReadThrough, ReadDocument, AfterCall, ScanFrom, Trim, Compact, Candidate, After, NothingShadowed, Compactable, Fresh, TrueEntry;
    match events[0]
    case Do(call) =>
      CallKeepsFresh(enc, sizeOf, cid, s, call);
    case CompactNow =>
      if s.cache.Some? {
        FreshNotShadowed(enc, cid, s);
      }
    case Read(id, _) =>
      CurrentIsCandidate(enc, cid, s.w, id);
      ReadKeepsFresh(enc, sizeOf, cid, s, id);
    case Enable(maxBytes) =>
      if s.cache.Some? {
        TrimBounded(s.cache.value, 0, maxBytes);
        FewerFresh(s.w.db, cid, s.cache.value, Trim(s.cache.value, 0, maxBytes));
      } else {
        FewerFresh(s.w.db, cid, [], []);
      }
    case Disable =>
  }

  /** If cursors read current versions only, the cache stays invisible over any number of compactions. */
  lemma {:induction false} CurrentReadsTransparent(enc: Encoder, sizeOf: Sizes, cid: CollectionId, s: CachedWorld, events: seq<Event>)
    requires Synced(enc, s.w) && TrueCache(enc, cid, s) && FreshCache(cid, s) && ReadsCurrent(enc, cid, s.w, events)
    ensures Results(enc, sizeOf, cid, s, events) == PlainResults(enc, s.w, events)
    decreases |events|
  {
    hide Synced, TrueCache, FreshCache, Step, PlainStep, Allowed;
    if |events| > 0 {
      SyncedHeader(enc, s.w);
      StepKeepsFresh(enc, sizeOf, cid, s, events);
      StepKeepsSynced(enc, sizeOf, cid, s, events[0]);
      StepKeepsTrue(enc, sizeOf, cid, s, events[0]);
      LaterReadsCurrent(enc, cid, s.w, events);
      CurrentReadsTransparent(enc, sizeOf, cid, Step(enc, sizeOf, cid, s, events[0]).0, events[1..]);
    }
  }

  lemma LaterReadsCurrent(enc: Encoder, cid: CollectionId, w: World, events: seq<Event>)
    requires |events| > 0 && ReadsCurrent(enc, cid, w, events)
    ensures ReadsCurrent(enc, cid, PlainStep(enc, w, events[0]).0, events[1..])
  {
    hide PlainStep, Reasonable, Compactable;
  }

  // ---------------------------------------------------------------------------
  // A superseded version served
  // ---------------------------------------------------------------------------

  /** A cursor that found a document before it was replaced, and a find after the compaction. */
  function StaleReads(enc: Encoder, p: Script): seq<Event>
    requires p.Plays(enc)
  {
    [Read(p.id, p.Offset(enc, 1)), Event.CompactNow, Read(p.id, p.Offset(enc, 1))]
  }

  lemma ScriptMoves(enc: Encoder, p: Script)
    requires p.Plays(enc)
    ensures var w := p.At(enc, 4);
            && Synced(enc, w) && Compactable(enc, w)
            && p.cid in w.db.collections && p.id in w.db.collections[p.cid].documents
            && w.db.collections[p.cid].documents[p.id].document == Identify(p.second, p.id)
            && Compaction.MovedOffset(MovesOf(enc, w), w.db.collections[p.cid].documents[p.id].offset) == p.Offset(enc, 1)
  {
    hide Synced, Compactable, KeptLog, Moves, ScanFrom, Script.At, Script.Log, Script.Record, Script.Offset, Recorded, IsObjectIdHex, Get, Stored;
    Staged(enc, p, 4);
    ScriptCompactable(enc, p);
    ScriptKeptLog(enc, p);
    OffsetsGrow(enc, p);
  }

  lemma ScriptFirstVersion(enc: Encoder, p: Script)
    requires p.Plays(enc)
    ensures var w := p.At(enc, 4);
            && |w.file| >= FILE_HEADER_BYTES && Candidate(enc, p.cid, w.file, p.id, p.Offset(enc, 1))
            && ReadDocument(enc, w.file, p.Offset(enc, 1)) == Ok(Identify(p.first, p.id))
  {
    hide Synced, Decode, ScanFrom, Script.Plays, Script.At, Script.Record, Script.Offset, ReadDocument, Stored;
    Staged(enc, p, 4);
    SyncedHeader(enc, p.At(enc, 4));
    LogDecodes(enc, p, 1);
    var l := p.Log(enc, 4)[1];
    assert l in ScanLog(p.At(enc, 4).file).records && WrittenAt(enc, p.cid, p.id, l) == Some(Identify(p.first, p.id));
    var m := CandidateReads(enc, p.cid, p.At(enc, 4).file, p.id, p.Offset(enc, 1));
  }

  /**
   On a file that calls have written, with an empty cache: compaction moves the newer version to the
   offset of the older one, and the cache, which still holds the older one, answers a find with it.
   Without the cache, or without the read of the older version, the find gives the document as it is.
   */
  lemma SupersededVersionServed(enc: Encoder, sizeOf: Sizes, p: Script, maxBytes: nat)
    requires p.Plays(enc) && sizeOf(Identify(p.first, p.id)) <= maxBytes && Identify(p.first, p.id) != Identify(p.second, p.id)
    ensures var s := CachedWorld(p.At(enc, 4), Some([]), maxBytes);
            && Synced(enc, s.w) && TrueCache(enc, p.cid, s) && FreshCache(p.cid, s) && Compactable(enc, s.w)
            && Allowed(enc, p.cid, s, Read(p.id, p.Offset(enc, 1)))
            && Results(enc, sizeOf, p.cid, s, StaleReads(enc, p)) == [Some(Ok(Identify(p.first, p.id))), None, Some(Ok(Identify(p.first, p.id)))]
            && PlainResults(enc, s.w, StaleReads(enc, p)) == [Some(Ok(Identify(p.first, p.id))), None, Some(Ok(Identify(p.second, p.id)))]
  {
    hide Synced, Compactable, Candidate, ReadDocument, Script.At, Script.Offset, Script.Plays, ScanFrom, Compact, Stored, MovesOf, Compaction.MovedOffset;
    var s := CachedWorld(p.At(enc, 4), Some([]), maxBytes);
    var o, id := p.Offset(enc, 1), p.id;
    var a, b := Identify(p.first, id), Identify(p.second, id);
    ScriptMoves(enc, p);
    ScriptFirstVersion(enc, p);
    var e := CacheEntry(id, a, o, sizeOf(a));
    FirstSet(e, maxBytes);
    assert ReadThrough(enc, sizeOf, s, id, o) == (s.(cache := Some([e])), Ok(a));
    MovedRead(enc, sizeOf, p.cid, s.w, [e], maxBytes, id);
    HeaderKept(enc, s.w);
    ThreeResults(enc, sizeOf, p.cid, s, Read(id, o), Event.CompactNow, Read(id, o));
  }

  lemma ThreeResults(enc: Encoder, sizeOf: Sizes, cid: CollectionId, s: CachedWorld, a: Event, b: Event, c: Event)
    ensures var s1 := Step(enc, sizeOf, cid, s, a).0;
            var s2 := Step(enc, sizeOf, cid, s1, b).0;
            Results(enc, sizeOf, cid, s, [a, b, c]) == [Step(enc, sizeOf, cid, s, a).1, Step(enc, sizeOf, cid, s1, b).1, Step(enc, sizeOf, cid, s2, c).1]
    ensures var w1 := PlainStep(enc, s.w, a).0;
            var w2 := PlainStep(enc, w1, b).0;
            PlainResults(enc, s.w, [a, b, c]) == [PlainStep(enc, s.w, a).1, PlainStep(enc, w1, b).1, PlainStep(enc, w2, c).1]
  {
    hide Step, PlainStep;
    var events := [a, b, c];
    assert events[1..] == [b, c] && [b, c][1..] == [c] && [c][1..] == [];
    var s1 := Step(enc, sizeOf, cid, s, a).0;
    var s2 := Step(enc, sizeOf, cid, s1, b).0;
    var s3 := Step(enc, sizeOf, cid, s2, c).0;
    assert Results(enc, sizeOf, cid, s3, []) == [];
    assert Results(enc, sizeOf, cid, s2, [c]) == [Step(enc, sizeOf, cid, s2, c).1];
    assert Results(enc, sizeOf, cid, s1, [b, c]) == [Step(enc, sizeOf, cid, s1, b).1, Step(enc, sizeOf, cid, s2, c).1];
    var w1 := PlainStep(enc, s.w, a).0;
    var w2 := PlainStep(enc, w1, b).0;
    assert PlainResults(enc, PlainStep(enc, w2, c).0, []) == [];
    assert PlainResults(enc, w2, [c]) == [PlainStep(enc, w2, c).1];
    assert PlainResults(enc, w1, [b, c]) == [PlainStep(enc, w1, b).1, PlainStep(enc, w2, c).1];
  }

  lemma FirstSet(e: CacheEntry, maxBytes: nat)
    requires e.bytes <= maxBytes
    ensures AfterSet([], e, maxBytes) == [e] && Lookup([e], e.id) == Some(e)
  {
  }
}
