/**
 The file if compaction stops halfway. What opening it would read is decided exactly: the records
 copied so far, then whatever stands in the old file where the next copy would go. Behind a copy
 shorter than the record it overwrites that is the middle of a record, and the rest can be lost.
 */
module Interruption {
  import opened Bytes
  import opened Records
  import opened LogScan
  import opened Documents
  import opened Operations
  import opened DatabaseState
  import opened Replay
  import opened Compaction
  import opened Runs
  import opened LogCompaction
  import opened CompactedRuns
  import opened CompactionLoop
  import opened Database
  import opened Resumption
  import opened Scenarios

  // ---------------------------------------------------------------------------
  // Reading depends on the rest of the file only
  // ---------------------------------------------------------------------------

  predicate SameRest(f: seq<byte>, g: seq<byte>, offset: nat) {
    offset <= |f| == |g| && f[offset..] == g[offset..]
  }

  lemma RestOfRest(f: seq<byte>, g: seq<byte>, offset: nat, later: nat)
    requires SameRest(f, g, offset) && offset <= later <= |f|
    ensures SameRest(f, g, later)
  {
    SliceFrom(f, g, offset, later, |f|);
    assert f[later..|f|] == f[later..] && g[later..|g|] == g[later..];
  }

  lemma SameLength(f: seq<byte>, g: seq<byte>, offset: nat)
    requires SameRest(f, g, offset) && offset + 8 <= |f|
    ensures ReadU32BE(f, offset + 4) == ReadU32BE(g, offset + 4)
  {
    hide ReadU32BE;
    SliceFrom(f, g, offset, offset, offset + 8);
    ReadU32Stable(f, g, offset);
  }

  lemma SameStep(f: seq<byte>, g: seq<byte>, offset: nat)
    requires SameRest(f, g, offset)
    ensures StepAt(f, offset) == StepAt(g, offset)
  {
    hide ReadU32BE, DecodeOperationRecord;
    if offset + 8 <= |f| {
      SameLength(f, g, offset);
      var e := offset + 8 + ReadU32BE(f, offset + 4);
      if e + 4 <= |f| {
        SliceFrom(f, g, offset, offset, e);
        SliceFrom(f, g, offset, e, e + 4);
      }
    }
  }

  lemma {:induction false} SameScan(f: seq<byte>, g: seq<byte>, offset: nat)
    requires SameRest(f, g, offset)
    ensures ScanFrom(f, offset) == ScanFrom(g, offset)
    decreases |f| - offset
  {
    hide StepAt, ScanFrom, SameRest;
    assert offset <= |f| == |g| by { RestBounds(f, g, offset); }
    SameStep(f, g, offset);
    if StepAt(f, offset).Next? {
      var next := offset + StepAt(f, offset).record.Length();
      ScanNext(f, offset);
      ScanNext(g, offset);
      RestOfRest(f, g, offset, next);
      SameScan(f, g, next);
    } else {
      ScanStops(f, offset);
      ScanStops(g, offset);
    }
  }

  lemma RestBounds(f: seq<byte>, g: seq<byte>, offset: nat)
    requires SameRest(f, g, offset)
    ensures offset <= |f| == |g|
  {
  }

  // ---------------------------------------------------------------------------
  // The half-compacted file
  // ---------------------------------------------------------------------------

  /** Opening would read the copied records, then what the old file holds from the write head on. */
  lemma InterruptedScan(enc: Encoder, st: State, file: seq<byte>, ls: seq<Located>, k: nat, bytes: seq<byte>)
    requires |file| >= FILE_HEADER_BYTES && k <= |ls| && Copied(enc, st, file, ls, k, bytes)
    ensures WriteHead(enc, st, ls, k) <= |file| == |bytes|
    ensures var rest := ScanFrom(file, WriteHead(enc, st, ls, k));
            ScanLog(bytes) == rest.(records := Relocated(KeptLog(enc, st, ls[..k])) + rest.records)
  {
    hide ScanFrom, KeptLog, EncodeAll, RecordsIn;
    var head := WriteHead(enc, st, ls, k);
    var rs := RecordsIn(KeptLog(enc, st, ls[..k]));
    SameScan(bytes, file, head);
    CopiedHolds(enc, st, file, ls, k, bytes);
    ScanEncoded(bytes, FILE_HEADER_BYTES, rs);
  }

  lemma CopiedHolds(enc: Encoder, st: State, file: seq<byte>, ls: seq<Located>, k: nat, bytes: seq<byte>)
    requires |file| >= FILE_HEADER_BYTES && k <= |ls| && Copied(enc, st, file, ls, k, bytes)
    ensures var rs := RecordsIn(KeptLog(enc, st, ls[..k]));
            HoldsAt(bytes, FILE_HEADER_BYTES, rs) && FILE_HEADER_BYTES + |EncodeAll(rs)| == WriteHead(enc, st, ls, k)
  {
    hide KeptLog, EncodeAll, RecordsIn, WriteHead;
    var head := WriteHead(enc, st, ls, k);
    var rs := RecordsIn(KeptLog(enc, st, ls[..k]));
    assert |bytes[..head]| == FILE_HEADER_BYTES + |EncodeAll(rs)|;
    assert bytes[FILE_HEADER_BYTES..head] == bytes[..head][FILE_HEADER_BYTES..];
  }

  /** At a boundary of the old log, every record from there on is still found. */
  lemma InterruptedAtBoundary(enc: Encoder, st: State, file: seq<byte>, ls: seq<Located>, j: nat, k: nat, bytes: seq<byte>)
    requires |file| >= FILE_HEADER_BYTES && ScanLog(file) == Scan(ls, |file|, Clean) && j < |ls| && k <= |ls|
    requires Copied(enc, st, file, ls, k, bytes) && WriteHead(enc, st, ls, k) == ls[j].offset
    ensures ScanLog(bytes) == Scan(Relocated(KeptLog(enc, st, ls[..k])) + ls[j..], |file|, Clean)
  {
    hide ScanFrom, KeptLog, Copied, WriteHead;
    InterruptedScan(enc, st, file, ls, k, bytes);
    assert ls[0..] == ls;
    ScanReaches(file, FILE_HEADER_BYTES, ls, 0, j);
  }

  lemma {:induction false} ScanReaches(file: seq<byte>, offset: nat, ls: seq<Located>, i: nat, j: nat)
    requires offset <= |file| && i <= j < |ls| && ScanFrom(file, offset) == Scan(ls[i..], |file|, Clean)
    ensures ls[j].offset <= |file| && ScanFrom(file, ls[j].offset) == Scan(ls[j..], |file|, Clean)
    decreases j - i
  {
    hide ScanFrom;
    ScanStep(file, offset, ls, i);
    if i < j {
      ScanReaches(file, offset + ls[i].record.Length(), ls, i + 1, j);
    }
  }

  /** The bytes of a record in the middle of its payload. */
  lemma PayloadBytes(file: seq<byte>, offset: nat, r: ValidRecord, at: nat)
    requires offset + r.Length() <= |file| && file[offset..offset + r.Length()] == r.Encoded() && at + 4 <= |r.payload|
    ensures ReadU32BE(file, offset + 8 + at) == ReadU32BE(r.payload, at)
  {
    hide FromBytesBE, Crc32.Checksum, U32BE;
    assert forall i :: 0 <= i < |r.payload| ==> r.payload[i] == r.Encoded()[8 + i] == file[offset..offset + r.Length()][8 + i];
  }

  // ---------------------------------------------------------------------------
  // What the copied records amount to
  // ---------------------------------------------------------------------------

  /** Compaction stopped before the record `k` of a database in step with its file. */
  ghost predicate Interrupted(enc: Encoder, w: World, k: nat, bytes: seq<byte>) {
    && Synced(enc, w) && Compactable(enc, w)
    && k <= |ScanLog(w.file).records| && Copied(enc, w.db, w.file, ScanLog(w.file).records, k, bytes)
  }

  /** The operations of the records before `k`, markers left out. */
  function Before(enc: Encoder, w: World, k: nat): seq<Stamped>
    requires |w.file| >= FILE_HEADER_BYTES && k <= |ScanLog(w.file).records|
  {
    var us := Unmarked(ScanLog(w.file).records[..k]);
    if AllDecode(enc, us) then Stamps(enc, us) else []
  }

  function MovesBefore(enc: Encoder, w: World, k: nat): map<nat, nat>
    requires |w.file| >= FILE_HEADER_BYTES && k <= |ScanLog(w.file).records|
  {
    Moves(KeptLog(enc, w.db, ScanLog(w.file).records[..k]))
  }

  lemma {:induction false} UnmarkedPrefix(ls: seq<Located>, k: nat)
    requires k <= |ls|
    ensures Unmarked(ls[..k]) <= Unmarked(ls)
    ensures Unmarked(ls) == Unmarked(ls[..k]) + Unmarked(ls[k..])
    decreases |ls|
  {
    hide IsMarker;
    if k < |ls| {
      var n := |ls| - 1;
      UnmarkedPrefix(ls[..n], k);
      assert ls[..n][..k] == ls[..k] && ls[..n][k..] == ls[k..][..n - k] && ls[k..][n - k] == ls[n];
    } else {
      assert ls[..k] == ls && ls[k..] == [];
    }
  }

  lemma BeforeIsPrefix(enc: Encoder, w: World, k: nat)
    requires Synced(enc, w) && |w.file| >= FILE_HEADER_BYTES && k <= |ScanLog(w.file).records|
    ensures AllDecode(enc, Unmarked(ScanLog(w.file).records[..k])) && Before(enc, w, k) <= OpsOf(enc, w.file)
  {
    hide Synced, Decode, Unmarked, ScanFrom, Increasing, ApplyOps;
    SyncedOps(enc, w);
    var ls := ScanLog(w.file).records;
    UnmarkedPrefix(ls, k);
    assert forall l :: l in Unmarked(ls[..k]) ==> l in Unmarked(ls);
  }

  /** The copied records alone rebuild the part of the memory that the records before `k` account for. */
  lemma CopiedRebuild(enc: Encoder, w: World, k: nat)
    requires Synced(enc, w) && Compactable(enc, w) && k <= |ScanLog(w.file).records|
    ensures var kl := KeptLog(enc, w.db, ScanLog(w.file).records[..k]);
            && Increasing(kl) && AllDecode(enc, kl) && (forall l :: l in kl ==> !IsMarker(l))
            && ReplayLog(enc, Relocated(kl)) == Ok(Replayed(PartialState(w.db, Before(enc, w, k), MovesBefore(enc, w, k)), None))
  {
    hide Synced, Decode, Unmarked, ScanFrom, Increasing, ApplyOps, KeptLog, Moves, PartialState, IsMarker, ReplayFrom, IdsNeverReused, KeptIndexesAgree, OpsOf, WellLogged, Relocated;
    var ls := ScanLog(w.file).records;
    var pre := ls[..k];
    LogIncreases(w.file);
    FewerIncrease(ls, k);
    BeforeIsPrefix(enc, w, k);
    SyncedWell(enc, w);
    KeptUnmarked(enc, w.db, pre);
    KeptStamps(enc, w.db, Unmarked(pre));
    KeptUnmarkedWithin(enc, w.db, pre);
    ReplayRelocated(enc, KeptLog(enc, w.db, pre));
    var ss, m := OpsOf(enc, w.file), |Before(enc, w, k)|;
    assert ss[..m] == Before(enc, w, k);
    KeptPrefix(w.db, ss, m, MovesBefore(enc, w, k));
  }

  lemma FewerIncrease(ls: seq<Located>, k: nat)
    requires Increasing(ls) && k <= |ls|
    ensures Increasing(ls[..k])
  {
  }

  // ---------------------------------------------------------------------------
  // Stopped where the rest of the file cannot be read
  // ---------------------------------------------------------------------------

  /** Where compaction reads next. */
  function ScanHead(w: World, k: nat): nat
    requires |w.file| >= FILE_HEADER_BYTES && k <= |ScanLog(w.file).records|
  {
    if k < |ScanLog(w.file).records| then ScanLog(w.file).records[k].offset else |w.file|
  }

  /** The record's operation is among those before `k` exactly when it stands before the place compaction reads next. */
  lemma StampedBefore(enc: Encoder, w: World, k: nat, s: Stamped)
    requires Synced(enc, w) && |w.file| >= FILE_HEADER_BYTES && k <= |ScanLog(w.file).records| && s in OpsOf(enc, w.file)
    ensures s in Before(enc, w, k) <==> s.offset < ScanHead(w, k)
  {
    hide Synced, Decode, Unmarked, ScanFrom, ApplyOps;
    var ls := ScanLog(w.file).records;
    SyncedOps(enc, w);
    BeforeIsPrefix(enc, w, k);
    UnmarkedPrefix(ls, k);
    UnmarkedWithin(ls[..k]);
    UnmarkedWithin(ls[k..]);
    LogIncreases(w.file);
    RecordsAfter(w.file, FILE_HEADER_BYTES);
    var us, pre := Unmarked(ls), Unmarked(ls[..k]);
    var i :| 0 <= i < |us| && Stamps(enc, us)[i] == s;
    if i < |pre| {
      assert us[i] == pre[i] && pre[i] in pre && us[i] in ls[..k];
      assert Before(enc, w, k)[i] == s;
      InPrefix(ls, k, us[i]);
      assert us[i] in ScanFrom(w.file, FILE_HEADER_BYTES).records;
    } else {
      assert us[i] == Unmarked(ls[k..])[i - |pre|] && us[i] in Unmarked(ls[k..]) && us[i] in ls[k..];
      InSuffix(ls, k, us[i]);
    }
  }

  lemma InPrefix(ls: seq<Located>, k: nat, l: Located)
    requires Increasing(ls) && k <= |ls| && l in ls[..k]
    ensures l in ls && (k < |ls| ==> l.offset < ls[k].offset)
  {
  }

  lemma InSuffix(ls: seq<Located>, k: nat, l: Located)
    requires Increasing(ls) && k < |ls| && l in ls[k..]
    ensures l in ls && l.offset >= ls[k].offset
  {
  }

  predicate HasDocument(st: State, cid: CollectionId, id: Str) {
    cid in st.collections && id in st.collections[cid].documents
  }

  /** Of the live documents, the copied records hold exactly those whose record compaction has read. */
  lemma CopiedDocuments(enc: Encoder, w: World, k: nat, cid: CollectionId, id: Str)
    requires Synced(enc, w) && Compactable(enc, w) && k <= |ScanLog(w.file).records| && HasDocument(w.db, cid, id)
    ensures HasDocument(PartialState(w.db, Before(enc, w, k), MovesBefore(enc, w, k)), cid, id)
       <==> w.db.collections[cid].documents[id].offset < ScanHead(w, k)
  {
    hide Synced, Decode, Unmarked, ScanFrom, ApplyOps, IdsNeverReused, KeptIndexesAgree, OpsOf, ScanHead, Before, MovesBefore, TracedIndex, Postings;
    SyncedWell(enc, w);
    BeforeIsPrefix(enc, w, k);
    var ss, pre := OpsOf(enc, w.file), Before(enc, w, k);
    OpsTraced(ss);
    var s := PutStamp(cid, id, w.db.collections[cid].documents[id]);
    assert TracedCollection(w.db.collections[cid], cid, ss) && s in ss;
    StampedBefore(enc, w, k, s);
    if s in pre {
      var i :| 0 <= i < |pre| && pre[i] == s;
      assert ss[..|pre|] == pre && ss[i] == s;
      DeclaredBefore(ss, i);
      var d :| d in ss[..i] && Declares(d, cid);
      assert d in pre;
      assert Declared(pre, cid);
    }
  }

  /**
   If what stands at the write position is no whole record, opening finds the copied records and
   cuts off the rest: every live document that compaction had not reached is gone.
   */
  lemma InterruptedTorn(enc: Encoder, w: World, k: nat, bytes: seq<byte>)
    requires Interrupted(enc, w, k, bytes)
    requires var head := WriteHead(enc, w.db, ScanLog(w.file).records, k); head <= |w.file| && StepAt(w.file, head).Torn?
    ensures var head := WriteHead(enc, w.db, ScanLog(w.file).records, k);
            && |bytes| == |w.file| && FILE_HEADER_BYTES <= head
            && OpenFile(enc, bytes) == Ok(Opened(PartialState(w.db, Before(enc, w, k), MovesBefore(enc, w, k)), false, bytes[..head], true))
    ensures forall cid, id :: HasDocument(w.db, cid, id) ==>
              (HasDocument(OpenFile(enc, bytes).value.db, cid, id) <==> w.db.collections[cid].documents[id].offset < ScanHead(w, k))
  {
    hide Synced, Compactable, KeptLog, Copied, WriteHead, Before, MovesBefore, PartialState, ReplayFrom, ScanHead, Relocated, StepAt, ScanFrom;
    var ls := ScanLog(w.file).records;
    var head := WriteHead(enc, w.db, ls, k);
    InterruptedScan(enc, w.db, w.file, ls, k, bytes);
    ScanStops(w.file, head);
    assert Relocated(KeptLog(enc, w.db, ls[..k])) + [] == Relocated(KeptLog(enc, w.db, ls[..k]));
    CopiedRebuild(enc, w, k);
    OpenLog(enc, bytes);
    forall cid, id | HasDocument(w.db, cid, id)
      ensures HasDocument(OpenFile(enc, bytes).value.db, cid, id) <==> w.db.collections[cid].documents[id].offset < ScanHead(w, k)
    {
      CopiedDocuments(enc, w, k, cid, id);
    }
  }

  /** If a record that cannot be read follows from the write position on, and is not the last thing there, the file no longer opens. */
  lemma InterruptedCorrupt(enc: Encoder, w: World, k: nat, bytes: seq<byte>)
    requires Interrupted(enc, w, k, bytes)
    requires var head := WriteHead(enc, w.db, ScanLog(w.file).records, k); head <= |w.file| && ScanFrom(w.file, head).status.Corrupted?
    ensures |bytes| == |w.file| && |bytes| >= FILE_HEADER_BYTES && OpenFile(enc, bytes).Err?
  {
    hide Compactable, KeptLog, Copied, WriteHead, ReplayFrom, Relocated, ScanFrom;
    InterruptedScan(enc, w.db, w.file, ScanLog(w.file).records, k, bytes);
  }

  /** A half-compacted file as the loop leaves it. */
  function HalfCompacted(enc: Encoder, w: World, k: nat): (bytes: seq<byte>)
    requires |w.file| >= FILE_HEADER_BYTES && k <= |ScanLog(w.file).records| && WriteHead(enc, w.db, ScanLog(w.file).records, k) <= |w.file|
  {
    w.file[..FILE_HEADER_BYTES] + EncodeAll(RecordsIn(KeptLog(enc, w.db, ScanLog(w.file).records[..k])))
    + w.file[WriteHead(enc, w.db, ScanLog(w.file).records, k)..]
  }

  lemma HalfCompactedIsCopied(enc: Encoder, w: World, k: nat)
    requires |w.file| >= FILE_HEADER_BYTES && k <= |ScanLog(w.file).records| && WriteHead(enc, w.db, ScanLog(w.file).records, k) <= |w.file|
    ensures Copied(enc, w.db, w.file, ScanLog(w.file).records, k, HalfCompacted(enc, w, k))
  {
    hide KeptLog, EncodeAll, RecordsIn, ScanFrom, Increasing;
    var ls := ScanLog(w.file).records;
    LogIncreases(w.file);
    FewerIncrease(ls, k);
    KeptWithin(enc, w.db, ls[..k]);
    MovesAreRelocations(KeptLog(enc, w.db, ls[..k]));
  }

  /**
   Behind a dropped record that was overwritten by a shorter one, the payload left over is taken for
   the header of a record; it is no whole record if what reads as its length is too long.
   */
  lemma TornBehindShorter(enc: Encoder, st: State, file: seq<byte>, ls: seq<Located>, j: nat)
    requires |file| >= FILE_HEADER_BYTES && ScanLog(file).records == ls && j + 2 <= |ls|
    requires WriteHead(enc, st, ls, j) == ls[j].offset && !KeepRecord(enc, st, ls[j]) && KeepRecord(enc, st, ls[j + 1])
    requires var n := ls[j + 1].record.Length();
             n <= |ls[j].record.payload| && ls[j].offset + n + 12 + ReadU32BE(ls[j].record.payload, n - 4) > |file|
    ensures WriteHead(enc, st, ls, j + 2) == ls[j].offset + ls[j + 1].record.Length() <= |file|
    ensures StepAt(file, WriteHead(enc, st, ls, j + 2)) == Torn
  {
    hide ScanFrom, KeptLog, WriteHead, KeepRecord, ReadU32BE, ReadRecord, StepAt, Record.Encoded;
    var dead, n := ls[j], ls[j + 1].record.Length();
    KeptNext(enc, st, ls, j);
    KeptNext(enc, st, ls, j + 1);
    RecordsReadable(file, FILE_HEADER_BYTES);
    assert dead in ScanFrom(file, FILE_HEADER_BYTES).records;
    ReadIsEncoded(file, dead.offset);
    PayloadBytes(file, dead.offset, dead.record, n - 4);
    LengthBeyond(file, dead.offset + n);
  }

  lemma LengthBeyond(file: seq<byte>, offset: nat)
    requires offset + 8 <= |file| < offset + 12 + ReadU32BE(file, offset + 4)
    ensures StepAt(file, offset) == Torn
  {
  }

  // ---------------------------------------------------------------------------
  // Stopped at a record boundary of the old log
  // ---------------------------------------------------------------------------

  /** Whether a replay goes through, and what it leaves staged, does not depend on the state it starts from, but for the operations it applies. */
  lemma {:induction false} ReplayParallel(enc: Encoder, a: State, b: State, ls: seq<Located>) returns (applied: seq<Located>)
    requires ReplayFrom(enc, Replayed(a, None), ls).Ok?
    ensures var r := ReplayFrom(enc, Replayed(a, None), ls).value;
            && Unmarked(ls) == applied + StagedOf(r)
            && ReplayFrom(enc, Replayed(b, None), ls) == match ApplyAll(enc, b, applied)
                                                         case Ok(db) => Ok(Replayed(db, r.staged))
                                                         case Err(e) => Err(e)
    decreases |ls|
  {
    hide ApplyRecord;
    if |ls| == 0 {
      applied := [];
    } else {
      var n := |ls| - 1;
      var before := ReplayFrom(enc, Replayed(a, None), ls[..n]).value;
      applied := ReplayParallel(enc, a, b, ls[..n]);
      if before.staged.Some? {
        if ls[n].record.identifier == TRANSACTION_COMMIT {
          ApplySplits(enc, b, applied, before.staged.value);
          applied := applied + before.staged.value;
          assert applied + [] == applied;
        } else {
          assert applied + before.staged.value + [ls[n]] == applied + (before.staged.value + [ls[n]]);
        }
      } else if !IsMarker(ls[n]) {
        ApplySplits(enc, b, applied, [ls[n]]);
        OneApplied(enc, b, applied, ls[n]);
        applied := applied + [ls[n]];
        assert applied + [] == applied;
      }
    }
  }

  lemma OneApplied(enc: Encoder, st: State, ls: seq<Located>, l: Located)
    ensures ApplyAll(enc, st, ls + [l]) == match ApplyAll(enc, st, ls)
                                           case Ok(db) => ApplyRecord(enc, db, l)
                                           case Err(e) => Err(e)
  {
    hide ApplyRecord;
    assert (ls + [l])[..|ls + [l]| - 1] == ls;
  }

  /** Reading on inside a transaction without its beginning: until its commit nothing is staged, and the commit throws. */
  lemma {:induction false} ReplayInside(enc: Encoder, a: State, staged: seq<Located>, b: State, ls: seq<Located>)
    requires ReplayFrom(enc, Replayed(a, Some(staged)), ls).Ok?
    ensures var t := ReplayFrom(enc, Replayed(b, None), ls);
            t.Err? || (t.value.staged.None? && ReplayFrom(enc, Replayed(a, Some(staged)), ls).value.staged.Some?)
    decreases |ls|
  {
    hide ApplyRecord, ApplyAll;
    if |ls| > 0 {
      ReplayInside(enc, a, staged, b, ls[..|ls| - 1]);
    }
  }

  /** No transaction is open before the record `j`. */
  predicate OutsideTransaction(enc: Encoder, w: World, j: nat)
    requires |w.file| >= FILE_HEADER_BYTES && j <= |ScanLog(w.file).records|
  {
    var r := ReplayLog(enc, ScanLog(w.file).records[..j]);
    r.Ok? && r.value.staged.None?
  }

  /** The operations from the record `j` on. */
  function From(enc: Encoder, w: World, j: nat): seq<Stamped>
    requires |w.file| >= FILE_HEADER_BYTES && j <= |ScanLog(w.file).records|
  {
    if |Before(enc, w, j)| <= |OpsOf(enc, w.file)| then OpsOf(enc, w.file)[|Before(enc, w, j)|..] else []
  }

  /** From `j` on a collection is dropped that was declared before. */
  ghost predicate DropsOlderCollection(enc: Encoder, w: World, j: nat)
    requires |w.file| >= FILE_HEADER_BYTES && j <= |ScanLog(w.file).records|
  {
    exists s :: s in From(enc, w, j) && s.op.DropCollection? && Declared(Before(enc, w, j), s.op.collectionId)
  }

  /** From `j` on an index is dropped of a collection that was declared before. */
  ghost predicate DropsOlderIndex(enc: Encoder, w: World, j: nat)
    requires |w.file| >= FILE_HEADER_BYTES && j <= |ScanLog(w.file).records|
  {
    exists s :: s in From(enc, w, j) && s.op.DropIndex? && Declared(Before(enc, w, j), s.op.collectionId)
  }

  function CutAt(enc: Encoder, w: World, j: nat, k: nat): Cut
    requires |w.file| >= FILE_HEADER_BYTES && j <= k <= |ScanLog(w.file).records|
  {
    Cut(w.db, Before(enc, w, j), Before(enc, w, k), MovesBefore(enc, w, k))
  }

  /**
   An operation on an older collection, from `j` on, cannot be applied over what the records before `k` rebuild: it drops an index
   that is not there, or creates a unique one over documents that collide.
   */
  ghost predicate BlockedBehind(enc: Encoder, w: World, j: nat, k: nat)
    requires |w.file| >= FILE_HEADER_BYTES && j <= k <= |ScanLog(w.file).records|
  {
    var ss, m := OpsOf(enc, w.file), |Before(enc, w, j)|;
    exists i :: m <= i < |ss| && Blocked(CutAt(enc, w, j, k), ss, m, i)
  }

  lemma FromIsSuffix(enc: Encoder, w: World, j: nat)
    requires Synced(enc, w) && |w.file| >= FILE_HEADER_BYTES && j <= |ScanLog(w.file).records|
    ensures var us := Unmarked(ScanLog(w.file).records[j..]);
            AllDecode(enc, us) && Stamps(enc, us) == From(enc, w, j)
    ensures Before(enc, w, j) + From(enc, w, j) == OpsOf(enc, w.file)
  {
    hide Synced, Decode, Unmarked, ScanFrom, Increasing, ApplyOps;
    SyncedOps(enc, w);
    BeforeIsPrefix(enc, w, j);
    var ls := ScanLog(w.file).records;
    UnmarkedPrefix(ls, j);
    forall l | l in Unmarked(ls[j..])
      ensures Decode(enc, l.record).Ok?
    {
      assert l in Unmarked(ls);
    }
    var us, pre, suf := Unmarked(ls), Unmarked(ls[..j]), Unmarked(ls[j..]);
    assert forall i :: 0 <= i < |suf| ==> suf[i] == us[|pre| + i];
  }

  lemma BeforeAndFrom(enc: Encoder, w: World, j: nat)
    requires Synced(enc, w) && |w.file| >= FILE_HEADER_BYTES && j <= |ScanLog(w.file).records|
    ensures var ss, m := OpsOf(enc, w.file), |Before(enc, w, j)|;
            m <= |ss| && ss[..m] == Before(enc, w, j) && ss[m..] == From(enc, w, j)
  {
    hide Synced, OpsOf, Before, From, ScanFrom, Unmarked, Decode;
    FromIsSuffix(enc, w, j);
  }

  /** What the end of the log gives when it is read over any state instead of the one it was written over. */
  lemma EndReplays(enc: Encoder, w: World, j: nat, b: State)
    requires Synced(enc, w) && |w.file| >= FILE_HEADER_BYTES && j <= |ScanLog(w.file).records|
    ensures OutsideTransaction(enc, w, j) ==>
              ReplayFrom(enc, Replayed(b, None), ScanLog(w.file).records[j..]) == match ApplyOps(b, From(enc, w, j))
                                                                                 case Ok(db) => Ok(Replayed(db, None))
                                                                                 case Err(e) => Err(e)
    ensures !OutsideTransaction(enc, w, j) ==> ReplayFrom(enc, Replayed(b, None), ScanLog(w.file).records[j..]).Err?
  {
    hide Synced, Decode, Unmarked, ScanFrom, ReplayFrom, ApplyOps, ApplyAll, Before, From, Sound;
    var ls := ScanLog(w.file).records;
    SyncedLog(enc, w);
    assert ls[..j] + ls[j..] == ls;
    ReplaySplits(enc, Replayed(EMPTY, None), ls[..j], ls[j..]);
    FromIsSuffix(enc, w, j);
    var r := ReplayLog(enc, ls[..j]).value;
    if r.staged.None? {
      var applied := ReplayParallel(enc, r.db, b, ls[j..]);
      assert applied + [] == applied;
      OpsIsApply(enc, b, applied);
    } else {
      ReplayInside(enc, r.db, r.staged.value, b, ls[j..]);
    }
  }

  /** The write position never passes the record that is read next. */
  lemma HeadBehindScan(enc: Encoder, w: World, j: nat, k: nat)
    requires |w.file| >= FILE_HEADER_BYTES && j < |ScanLog(w.file).records| && k <= |ScanLog(w.file).records|
    requires WriteHead(enc, w.db, ScanLog(w.file).records, k) == ScanLog(w.file).records[j].offset
    ensures j <= k
  {
    hide ScanFrom, WriteHead;
    var ls := ScanLog(w.file).records;
    RecordsOrdered(w.file, FILE_HEADER_BYTES);
    RecordsAfter(w.file, FILE_HEADER_BYTES);
    LogIncreases(w.file);
    assert ls[0] in ScanFrom(w.file, FILE_HEADER_BYTES).records;
    if k < |ls| {
      WriteHeadBehind(enc, w.db, ls, k);
    }
  }

  lemma BeforeLonger(enc: Encoder, w: World, j: nat, k: nat)
    requires Synced(enc, w) && |w.file| >= FILE_HEADER_BYTES && j <= k <= |ScanLog(w.file).records|
    ensures |Before(enc, w, j)| <= |Before(enc, w, k)|
  {
    hide Synced, Decode, Unmarked, ScanFrom;
    var ls := ScanLog(w.file).records;
    BeforeIsPrefix(enc, w, j);
    BeforeIsPrefix(enc, w, k);
    UnmarkedPrefix(ls[..k], j);
    assert ls[..k][..j] == ls[..j];
  }

  lemma StampIndex(ss: seq<Stamped>, m: nat, i: nat)
    requires OffsetsIncrease(ss) && m <= |ss| && i < |ss|
    ensures ss[i] in ss[..m] <==> i < m
  {
    if ss[i] in ss[..m] {
      var h :| 0 <= h < m && ss[..m][h] == ss[i];
    }
  }

  lemma CompactableWell(enc: Encoder, w: World)
    requires Synced(enc, w) && Compactable(enc, w)
    ensures WellLogged(w.db, OpsOf(enc, w.file))
  {
    hide Synced, IdsNeverReused, KeptIndexesAgree, OpsOf, WellLogged;
    SyncedWell(enc, w);
  }

  /** Offsets tell the operations before the record `j` from those from it on. */
  lemma BeforeByOffset(enc: Encoder, w: World, j: nat)
    requires Synced(enc, w) && |w.file| >= FILE_HEADER_BYTES && j <= |ScanLog(w.file).records| && OffsetsIncrease(OpsOf(enc, w.file))
    ensures |Before(enc, w, j)| <= |OpsOf(enc, w.file)| && SplitsAt(OpsOf(enc, w.file), |Before(enc, w, j)|, ScanHead(w, j))
  {
    hide Synced, OpsOf, Before, ScanHead, ScanFrom, OffsetsIncrease;
    var ss := OpsOf(enc, w.file);
    BeforeIsPrefix(enc, w, j);
    var m := |Before(enc, w, j)|;
    assert ss[..m] == Before(enc, w, j);
    forall i | 0 <= i < |ss|
      ensures i < m <==> ss[i].offset < ScanHead(w, j)
    {
      StampedBefore(enc, w, j, ss[i]);
      StampIndex(ss, m, i);
    }
  }

  lemma NothingOlderDropped(enc: Encoder, w: World, j: nat)
    requires Synced(enc, w) && |w.file| >= FILE_HEADER_BYTES && j <= |ScanLog(w.file).records|
    ensures |Before(enc, w, j)| <= |OpsOf(enc, w.file)|
    ensures !DropsOlderCollection(enc, w, j) ==> KeepsOlder(OpsOf(enc, w.file), |Before(enc, w, j)|)
    ensures !DropsOlderIndex(enc, w, j) ==> KeepsOlderIndexes(OpsOf(enc, w.file), |Before(enc, w, j)|)
  {
    hide Synced, OpsOf, Before, From, ScanFrom, Declared, Unmarked, Decode;
    BeforeAndFrom(enc, w, j);
    var ss, m := OpsOf(enc, w.file), |Before(enc, w, j)|;
    assert forall i :: m <= i < |ss| ==> ss[i] == ss[m..][i - m] && ss[i] in From(enc, w, j);
  }

  lemma InterruptedSetting(enc: Encoder, w: World, j: nat, k: nat)
    requires Synced(enc, w) && Compactable(enc, w) && j <= k <= |ScanLog(w.file).records|
    requires !DropsOlderCollection(enc, w, j)
    ensures var ss := OpsOf(enc, w.file);
            |Before(enc, w, j)| <= |ss| && Setting(CutAt(enc, w, j, k), ss, |Before(enc, w, j)|, |Before(enc, w, k)|) && SplitsAt(ss, |Before(enc, w, j)|, ScanHead(w, j))
  {
    hide Synced, OpsOf, Before, MovesBefore, ScanHead, ScanFrom, DropsOlderCollection, DropsOlderIndex, KeepsOlder, KeptIndexesAgree, SplitsAt, ApplyOps, OffsetsIncrease, IdsNeverReused, NamesConsistent;
    CompactableWell(enc, w);
    BeforeIsPrefix(enc, w, j);
    BeforeIsPrefix(enc, w, k);
    BeforeLonger(enc, w, j, k);
    BeforeByOffset(enc, w, j);
    NothingOlderDropped(enc, w, j);
  }

  /** What opening a half-compacted file amounts to when the write position is where a record of the old log begins. */
  lemma InterruptedReplay(enc: Encoder, w: World, j: nat, k: nat, bytes: seq<byte>)
    requires Interrupted(enc, w, k, bytes) && j < |ScanLog(w.file).records|
    requires WriteHead(enc, w.db, ScanLog(w.file).records, k) == ScanLog(w.file).records[j].offset
    ensures |bytes| >= FILE_HEADER_BYTES
    ensures var r := ApplyOps(PartialState(w.db, Before(enc, w, k), MovesBefore(enc, w, k)), From(enc, w, j));
            && (OpenFile(enc, bytes).Ok? <==> OutsideTransaction(enc, w, j) && r.Ok?)
            && (OpenFile(enc, bytes).Ok? ==> OpenFile(enc, bytes) == Ok(Opened(r.value, false, bytes, false)))
  {
    hide Synced, Compactable, KeptLog, Copied, WriteHead, Before, MovesBefore, PartialState, ReplayFrom, Relocated, ScanFrom, ApplyOps, From, OutsideTransaction;
    var ls := ScanLog(w.file).records;
    SyncedLog(enc, w);
    CopiedHolds(enc, w.db, w.file, ls, k, bytes);
    InterruptedAtBoundary(enc, w.db, w.file, ls, j, k, bytes);
    CopiedRebuild(enc, w, k);
    var p := PartialState(w.db, Before(enc, w, k), MovesBefore(enc, w, k));
    ReplaySplits(enc, Replayed(EMPTY, None), Relocated(KeptLog(enc, w.db, ls[..k])), ls[j..]);
    EndReplays(enc, w, j, p);
    OpenLog(enc, bytes);
    assert bytes[..|bytes|] == bytes;
  }

  /** The end of the log from `j` on, over what the copied records rebuild. */
  lemma EndRebuilds(enc: Encoder, w: World, j: nat, k: nat)
    requires Synced(enc, w) && Compactable(enc, w) && j <= k <= |ScanLog(w.file).records| && !DropsOlderCollection(enc, w, j)
    ensures var r := ApplyOps(PartialState(w.db, Before(enc, w, k), MovesBefore(enc, w, k)), From(enc, w, j));
            && (r.Ok? <==> !BlockedBehind(enc, w, j, k))
            && (r.Ok? ==> r == Ok(RelocateState(w.db, Below(MovesBefore(enc, w, k), ScanHead(w, j)))))
    ensures !DropsOlderIndex(enc, w, j) ==> !BlockedBehind(enc, w, j, k)
  {
    hide Synced, Compactable, Before, MovesBefore, PartialState, ScanFrom, ApplyOps, From, RelocateState, Below, ScanHead, Setting, SplitsAt, OpsOf, DropsOlderCollection, DropsOlderIndex, Blocked, KeepsOlderIndexes;
    BeforeAndFrom(enc, w, j);
    var ss, m := OpsOf(enc, w.file), |Before(enc, w, j)|;
    InterruptedSetting(enc, w, j, k);
    ResumedRebuild(CutAt(enc, w, j, k), ss, m, |Before(enc, w, k)|, ScanHead(w, j));
    if !DropsOlderIndex(enc, w, j) && BlockedBehind(enc, w, j, k) {
      NothingOlderDropped(enc, w, j);
      var i :| m <= i < |ss| && Blocked(CutAt(enc, w, j, k), ss, m, i);
      NothingBlocked(CutAt(enc, w, j, k), ss, m, |Before(enc, w, k)|, i);
    }
  }

  lemma EndThrows(enc: Encoder, w: World, j: nat, k: nat)
    requires Synced(enc, w) && Compactable(enc, w) && j <= k <= |ScanLog(w.file).records| && DropsOlderCollection(enc, w, j)
    ensures ApplyOps(PartialState(w.db, Before(enc, w, k), MovesBefore(enc, w, k)), From(enc, w, j)).Err?
  {
    hide Synced, Compactable, Before, MovesBefore, PartialState, ScanFrom, ApplyOps, From, OpsOf, Declared, WellLogged;
    BeforeAndFrom(enc, w, j);
    var ss, m := OpsOf(enc, w.file), |Before(enc, w, j)|;
    var s :| s in From(enc, w, j) && s.op.DropCollection? && Declared(Before(enc, w, j), s.op.collectionId);
    var i :| 0 <= i < |From(enc, w, j)| && From(enc, w, j)[i] == s;
    CompactableWell(enc, w);
    DroppedThrows(CutAt(enc, w, j, k), ss, m, m + i);
  }

  /**
   Stopped where the write position meets a record boundary of the old log, the file opens exactly if the boundary
   is outside a transaction, no collection declared before it is dropped behind it, and no index operation behind it
   is blocked; and then with every collection, document and index of the memory. Where no index of an older collection is
   dropped behind it, none is blocked.
   */
  lemma InterruptedOpens(enc: Encoder, w: World, j: nat, k: nat, bytes: seq<byte>)
    requires Interrupted(enc, w, k, bytes) && j < |ScanLog(w.file).records|
    requires WriteHead(enc, w.db, ScanLog(w.file).records, k) == ScanLog(w.file).records[j].offset
    ensures |bytes| >= FILE_HEADER_BYTES && j <= k
    ensures OpenFile(enc, bytes).Ok? <==> OutsideTransaction(enc, w, j) && !DropsOlderCollection(enc, w, j) && !BlockedBehind(enc, w, j, k)
    ensures OpenFile(enc, bytes).Ok? ==>
              OpenFile(enc, bytes) == Ok(Opened(RelocateState(w.db, Below(MovesBefore(enc, w, k), ScanHead(w, j))), false, bytes, false))
    ensures !DropsOlderCollection(enc, w, j) && !DropsOlderIndex(enc, w, j) ==> !BlockedBehind(enc, w, j, k)
  {
    hide Synced, Compactable, Copied, WriteHead, Before, MovesBefore, PartialState, ScanFrom, ApplyOps, From, OutsideTransaction, RelocateState, Below, OpenFile, ScanHead, DropsOlderCollection, DropsOlderIndex, BlockedBehind;
    InterruptedReplay(enc, w, j, k, bytes);
    HeadBehindScan(enc, w, j, k);
    if DropsOlderCollection(enc, w, j) {
      EndThrows(enc, w, j, k);
    } else {
      EndRebuilds(enc, w, j, k);
    }
  }

  // ---------------------------------------------------------------------------
  // A file that loses a document
  // ---------------------------------------------------------------------------

  /** The replaced version is longer than the new one, and what is left of it reads as a length beyond the end of the file. */
  predicate LeavesRubbish(enc: Encoder, p: Script)
    requires p.Plays(enc)
  {
    var n := p.Record(enc, 2).Length();
    n <= |p.Record(enc, 1).payload| && p.Offset(enc, 1) + n + 12 + ReadU32BE(p.Record(enc, 1).payload, n - 4) > p.Offset(enc, 4)
  }

  /** Stopping before the last record, which is still in the file, loses the document it holds. */
  lemma InterruptionLosesDocument(enc: Encoder, p: Script)
    requires p.Plays(enc) && LeavesRubbish(enc, p)
    ensures var w := p.At(enc, 4);
            && Synced(enc, w) && Compactable(enc, w) && HasDocument(w.db, p.cid, p.other)
            && |ScanLog(w.file).records| == 4 && WriteHead(enc, w.db, ScanLog(w.file).records, 3) <= |w.file|
            && Interrupted(enc, w, 3, HalfCompacted(enc, w, 3))
            && |HalfCompacted(enc, w, 3)| >= FILE_HEADER_BYTES && OpenFile(enc, HalfCompacted(enc, w, 3)).Ok?
            && !HasDocument(OpenFile(enc, HalfCompacted(enc, w, 3)).value.db, p.cid, p.other)
  {
    hide Synced, Compactable, KeptLog, WriteHead, OpenFile, ScanFrom, Script.At, Script.Log, Script.Record, Script.Offset, Recorded, IsObjectIdHex, Get, Identify, KeepRecord, HalfCompacted, Copied;
    var w := p.At(enc, 4);
    var ls := p.Log(enc, 4);
    Staged(enc, p, 4);
    ScriptCompactable(enc, p);
    ScriptKept(enc, p, 1);
    ScriptKept(enc, p, 2);
    OffsetsGrow(enc, p);
    ScriptHead(enc, p);
    TornBehindShorter(enc, w.db, w.file, ls, 1);
    HalfCompactedIsCopied(enc, w, 3);
    InterruptedTorn(enc, w, 3, HalfCompacted(enc, w, 3));
  }

  lemma ScriptHead(enc: Encoder, p: Script)
    requires p.Plays(enc)
    ensures WriteHead(enc, p.Memory(enc, 4), p.Log(enc, 4), 1) == p.Offset(enc, 1)
  {
    hide Script.Plays, Script.Memory, Script.Record, KeptLog;
    ScriptKeptLog(enc, p);
    var l := p.Log(enc, 4)[0];
    assert [l][..0] == [];
    assert Size([l]) == l.record.Length();
  }
}
