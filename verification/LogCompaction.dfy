/**
 Compaction of the file: which records stay, where they move, and what opening the compacted
 file gives. Also the bytes it saves, and why doing it twice changes nothing.
 */
module LogCompaction {
  import opened Bytes
  import opened Records
  import opened LogScan
  import opened Documents
  import opened Payloads
  import opened Operations
  import opened DatabaseState
  import opened Replay
  import opened LiveReplay
  import opened UniqueConstraint
  import opened Compaction
  import opened Runs

  /** `shouldKeepOperation`; a record with an unknown identifier is kept. One that does not decode makes the source throw. */
  predicate KeepRecord(enc: Encoder, st: State, l: Located) {
    var op := Decode(enc, l.record);
    op.Err? || Keep(st, Stamped(l.offset, op.value))
  }

  function KeptLog(enc: Encoder, st: State, ls: seq<Located>): seq<Located> {
    if |ls| == 0 then []
    else KeptLog(enc, st, ls[..|ls| - 1]) + (if KeepRecord(enc, st, ls[|ls| - 1]) then [ls[|ls| - 1]] else [])
  }

  /** Bytes of the records. */
  function Size(ls: seq<Located>): nat {
    if |ls| == 0 then 0 else Size(ls[..|ls| - 1]) + ls[|ls| - 1].record.Length()
  }

  function RecordsIn(ls: seq<Located>): (rs: seq<ValidRecord>)
    ensures |rs| == |ls| && forall i :: 0 <= i < |ls| ==> rs[i] == ls[i].record
  {
    seq(|ls|, i requires 0 <= i < |ls| => ls[i].record)
  }

  /** From the old offset of each record to its offset when they all stand one after the other. */
  function Moves(ls: seq<Located>): map<nat, nat> {
    if |ls| == 0 then map[]
    else Moves(ls[..|ls| - 1])[ls[|ls| - 1].offset := FILE_HEADER_BYTES + Size(ls[..|ls| - 1])]
  }

  predicate Increasing(ls: seq<Located>) {
    forall i, j :: 0 <= i < j < |ls| ==> ls[i].offset < ls[j].offset
  }

  /** The header, and the kept records one after the other. */
  function CompactedFile(enc: Encoder, st: State, file: seq<byte>): seq<byte>
    requires |file| >= FILE_HEADER_BYTES
  {
    file[..FILE_HEADER_BYTES] + EncodeAll(RecordsIn(KeptLog(enc, st, ScanLog(file).records)))
  }

  // ---------------------------------------------------------------------------
  // Replaying a log is applying its operations in order, markers left out
  // ---------------------------------------------------------------------------

  function Unmarked(ls: seq<Located>): seq<Located> {
    if |ls| == 0 then []
    else Unmarked(ls[..|ls| - 1]) + (if IsMarker(ls[|ls| - 1]) then [] else [ls[|ls| - 1]])
  }

  function StagedOf(r: Replayed): seq<Located> {
    if r.staged.Some? then r.staged.value else []
  }

  lemma {:induction false} ApplySplits(enc: Encoder, st: State, ls: seq<Located>, ms: seq<Located>)
    ensures var first := ApplyAll(enc, st, ls);
            ApplyAll(enc, st, ls + ms) == if first.Ok? then ApplyAll(enc, first.value, ms) else first
    decreases |ms|
  {
    hide ApplyRecord;
    if |ms| == 0 {
      assert ls + ms == ls;
    } else {
      assert (ls + ms)[..|ls + ms| - 1] == ls + ms[..|ms| - 1];
      ApplySplits(enc, st, ls, ms[..|ms| - 1]);
    }
  }

  /** What has been applied so far is everything but the markers and what is staged. */
  lemma {:induction false} ReplayIsApply(enc: Encoder, st: State, ls: seq<Located>) returns (applied: seq<Located>)
    requires ReplayFrom(enc, Replayed(st, None), ls).Ok?
    ensures var r := ReplayFrom(enc, Replayed(st, None), ls).value;
            Unmarked(ls) == applied + StagedOf(r) && ApplyAll(enc, st, applied) == Ok(r.db)
    decreases |ls|
  {
    hide ApplyRecord;
    if |ls| == 0 {
      applied := [];
    } else {
      var n := |ls| - 1;
      var before := ReplayFrom(enc, Replayed(st, None), ls[..n]).value;
      applied := ReplayIsApply(enc, st, ls[..n]);
      if before.staged.Some? {
        if ls[n].record.identifier == TRANSACTION_COMMIT {
          ApplySplits(enc, st, applied, before.staged.value);
          applied := applied + before.staged.value;
          assert applied + [] == applied;
        } else {
          assert applied + before.staged.value + [ls[n]] == applied + (before.staged.value + [ls[n]]);
        }
      } else if !IsMarker(ls[n]) {
        ApplySplits(enc, st, applied, [ls[n]]);
        assert [ls[n]][..0] == [];
        applied := applied + [ls[n]];
        assert applied + [] == applied;
      }
    }
  }

  predicate AllDecode(enc: Encoder, ls: seq<Located>) {
    forall l :: l in ls ==> Decode(enc, l.record).Ok?
  }

  function Stamps(enc: Encoder, ls: seq<Located>): (ss: seq<Stamped>)
    requires AllDecode(enc, ls)
    ensures |ss| == |ls| && forall i :: 0 <= i < |ls| ==> ss[i] == Stamped(ls[i].offset, Decode(enc, ls[i].record).value)
  {
    seq(|ls|, i requires 0 <= i < |ls| => assert ls[i] in ls; Stamped(ls[i].offset, Decode(enc, ls[i].record).value))
  }

  lemma {:induction false} ApplyIsOps(enc: Encoder, st: State, ls: seq<Located>)
    requires ApplyAll(enc, st, ls).Ok?
    ensures AllDecode(enc, ls) && ApplyOps(st, Stamps(enc, ls)) == ApplyAll(enc, st, ls)
    decreases |ls|
  {
    hide Decode, Apply;
    if |ls| > 0 {
      var n := |ls| - 1;
      ApplyIsOps(enc, st, ls[..n]);
      assert forall l :: l in ls ==> l in ls[..n] || l == ls[n];
      assert Stamps(enc, ls)[..n] == Stamps(enc, ls[..n]);
    }
  }

  lemma {:induction false} OpsIsApply(enc: Encoder, st: State, ls: seq<Located>)
    requires AllDecode(enc, ls)
    ensures ApplyAll(enc, st, ls) == ApplyOps(st, Stamps(enc, ls))
    decreases |ls|
  {
    hide Decode, Apply;
    if |ls| > 0 {
      var n := |ls| - 1;
      assert forall l :: l in ls[..n] ==> l in ls;
      OpsIsApply(enc, st, ls[..n]);
      assert Stamps(enc, ls)[..n] == Stamps(enc, ls[..n]);
      assert ls[n] in ls;
    }
  }

  /** A log without markers is replayed by applying it. */
  lemma {:induction false} ReplayUnmarked(enc: Encoder, ls: seq<Located>)
    requires forall l :: l in ls ==> !IsMarker(l)
    ensures ReplayLog(enc, ls) == match ApplyAll(enc, EMPTY, ls)
                                  case Ok(db) => Ok(Replayed(db, None))
                                  case Err(e) => Err(e)
    decreases |ls|
  {
    hide ApplyRecord;
    if |ls| > 0 {
      var n := |ls| - 1;
      assert ls[n] in ls;
      ReplayUnmarked(enc, ls[..n]);
    }
  }

  // ---------------------------------------------------------------------------
  // Kept records
  // ---------------------------------------------------------------------------

  lemma MarkersDropped(enc: Encoder, st: State, l: Located)
    requires IsMarker(l)
    ensures !KeepRecord(enc, st, l)
  {
    IdentifiersDiffer(TransactionBegin);
    IdentifiersDiffer(TransactionCommit);
    hide ReadFramed, DecodeCreateIndex;
  }

  /** Dropping markers first makes no difference. */
  lemma {:induction false} KeptUnmarked(enc: Encoder, st: State, ls: seq<Located>)
    ensures KeptLog(enc, st, ls) == KeptLog(enc, st, Unmarked(ls))
    decreases |ls|
  {
    hide KeepRecord, IsMarker;
    if |ls| > 0 {
      var n := |ls| - 1;
      KeptUnmarked(enc, st, ls[..n]);
      if IsMarker(ls[n]) {
        MarkersDropped(enc, st, ls[n]);
        assert Unmarked(ls) == Unmarked(ls[..n]);
        assert KeptLog(enc, st, ls) == KeptLog(enc, st, ls[..n]);
      } else {
        assert Unmarked(ls)[..|Unmarked(ls)| - 1] == Unmarked(ls[..n]);
      }
    }
  }

  lemma {:induction false} KeptWithin(enc: Encoder, st: State, ls: seq<Located>)
    ensures forall l :: l in KeptLog(enc, st, ls) ==> l in ls && KeepRecord(enc, st, l)
    ensures Increasing(ls) ==> Increasing(KeptLog(enc, st, ls))
    decreases |ls|
  {
    hide KeepRecord;
    if |ls| > 0 {
      var n := |ls| - 1;
      KeptWithin(enc, st, ls[..n]);
      assert forall l :: l in ls[..n] ==> l in ls;
      if Increasing(ls) {
        var ks := KeptLog(enc, st, ls[..n]);
        forall i | 0 <= i < |ks|
          ensures ks[i].offset < ls[n].offset
        {
          assert ks[i] in ks;
          var j :| 0 <= j < n && ls[..n][j] == ks[i];
          assert ls[j] == ks[i];
        }
      }
    }
  }

  /** The operations of the kept records are the kept operations. */
  lemma {:induction false} KeptStamps(enc: Encoder, st: State, ls: seq<Located>)
    requires AllDecode(enc, ls)
    ensures AllDecode(enc, KeptLog(enc, st, ls))
    ensures Stamps(enc, KeptLog(enc, st, ls)) == Kept(st, Stamps(enc, ls))
    decreases |ls|
  {
    hide Decode, Keep;
    if |ls| > 0 {
      var n := |ls| - 1;
      assert forall l :: l in ls[..n] ==> l in ls;
      KeptStamps(enc, st, ls[..n]);
      var ss := Stamps(enc, ls);
      assert ss[..n] == Stamps(enc, ls[..n]);
      assert ls[n] in ls;
      assert KeepRecord(enc, st, ls[n]) <==> Keep(st, ss[n]);
      var ks := KeptLog(enc, st, ls[..n]);
      if KeepRecord(enc, st, ls[n]) {
        assert AllDecode(enc, ks + [ls[n]]);
        assert Stamps(enc, ks + [ls[n]]) == Stamps(enc, ks) + [ss[n]];
      } else {
        assert KeptLog(enc, st, ls) == ks;
        assert Kept(st, ss) == Kept(st, ss[..n]);
      }
    }
  }

  // ---------------------------------------------------------------------------
  // Where the kept records stand in the compacted file
  // ---------------------------------------------------------------------------

  function Relocated(ls: seq<Located>): seq<Located> {
    Locate(RecordsIn(ls), FILE_HEADER_BYTES)
  }

  lemma EncodeOne(r: ValidRecord, base: nat)
    ensures EncodeAll([r]) == r.Encoded() && Locate([r], base) == [Located(base, r)]
  {
    hide Record.Encoded;
    assert [r][1..] == [];
    assert EncodeAll([]) == [] && Locate([], base + r.Length()) == [];
  }

  lemma RelocatedSnoc(ls: seq<Located>, l: Located)
    ensures Relocated(ls + [l]) == Relocated(ls) + [Located(FILE_HEADER_BYTES + |EncodeAll(RecordsIn(ls))|, l.record)]
    ensures |EncodeAll(RecordsIn(ls + [l]))| == |EncodeAll(RecordsIn(ls))| + l.record.Length()
  {
    hide Record.Encoded, Locate, EncodeAll;
    var rs, r := RecordsIn(ls), l.record;
    assert RecordsIn(ls + [l]) == rs + [r];
    EncodeAllAppend(rs, [r]);
    LocateAppend(rs, [r], FILE_HEADER_BYTES);
    EncodeOne(r, FILE_HEADER_BYTES + |EncodeAll(rs)|);
  }

  lemma {:induction false} MovesAreRelocations(ls: seq<Located>)
    requires Increasing(ls)
    ensures |EncodeAll(RecordsIn(ls))| == Size(ls)
    ensures |Relocated(ls)| == |ls|
    ensures forall i :: 0 <= i < |ls| ==>
              && ls[i].offset in Moves(ls)
              && Relocated(ls)[i] == Located(Moves(ls)[ls[i].offset], ls[i].record)
    decreases |ls|
  {
    hide Relocated, RecordsIn, EncodeAll, Increasing, Moves;
    if |ls| > 0 {
      var n := |ls| - 1;
      LastIncreases(ls);
      MovesAreRelocations(ls[..n]);
      RelocatedSnoc(ls[..n], ls[n]);
      LastMoves(ls);
      assert ls[..n] + [ls[n]] == ls;
      assert forall i :: 0 <= i < n ==> ls[..n][i] == ls[i];
    } else {
      NothingRelocated(ls);
    }
  }

  lemma LastIncreases(ls: seq<Located>)
    requires Increasing(ls) && |ls| > 0
    ensures Increasing(ls[..|ls| - 1]) && forall i :: 0 <= i < |ls| - 1 ==> ls[i].offset < ls[|ls| - 1].offset
  {
  }

  lemma LastMoves(ls: seq<Located>)
    requires |ls| > 0
    ensures Moves(ls) == Moves(ls[..|ls| - 1])[ls[|ls| - 1].offset := FILE_HEADER_BYTES + Size(ls[..|ls| - 1])]
  {
    hide Size;
  }

  lemma NothingRelocated(ls: seq<Located>)
    requires |ls| == 0
    ensures EncodeAll(RecordsIn(ls)) == [] && Relocated(ls) == []
  {
  }

  lemma RelocatedStamps(enc: Encoder, ls: seq<Located>)
    requires Increasing(ls) && AllDecode(enc, ls)
    ensures AllDecode(enc, Relocated(ls))
    ensures Stamps(enc, Relocated(ls)) == Move(Stamps(enc, ls), Moves(ls))
  {
    hide Decode, Moves, Increasing;
    MovesAreRelocations(ls);
    var nl := Relocated(ls);
    forall l | l in nl
      ensures Decode(enc, l.record).Ok?
    {
      var i :| 0 <= i < |nl| && nl[i] == l;
      assert ls[i] in ls;
    }
  }

  // ---------------------------------------------------------------------------
  // Opening the compacted file
  // ---------------------------------------------------------------------------

  /** The operations of a log, stamped, markers left out. */
  function OpsOf(enc: Encoder, file: seq<byte>): seq<Stamped>
    requires |file| >= FILE_HEADER_BYTES
  {
    var us := Unmarked(ScanLog(file).records);
    if AllDecode(enc, us) then Stamps(enc, us) else []
  }

  function Compact(enc: Encoder, w: World): World
    requires |w.file| >= FILE_HEADER_BYTES
  {
    World(CompactedFile(enc, w.db, w.file), RelocateState(w.db, Moves(KeptLog(enc, w.db, ScanLog(w.file).records))))
  }

  lemma LogIncreases(file: seq<byte>)
    requires |file| >= FILE_HEADER_BYTES
    ensures Increasing(ScanLog(file).records)
  {
    hide ScanFrom;
    RecordsOrdered(file, FILE_HEADER_BYTES);
  }

  lemma {:induction false} UnmarkedWithin(ls: seq<Located>)
    ensures forall l :: l in Unmarked(ls) ==> l in ls && !IsMarker(l)
    ensures Increasing(ls) ==> Increasing(Unmarked(ls))
    decreases |ls|
  {
    hide IsMarker;
    if |ls| > 0 {
      var n := |ls| - 1;
      UnmarkedWithin(ls[..n]);
      if Increasing(ls) {
        var us := Unmarked(ls[..n]);
        forall i | 0 <= i < |us|
          ensures us[i].offset < ls[n].offset
        {
          assert us[i] in us;
          var j :| 0 <= j < n && ls[..n][j] == us[i];
          assert ls[j] == us[i];
        }
      }
    }
  }

  /** The operations of a file in step with memory build that memory. */
  lemma SyncedOps(enc: Encoder, w: World)
    requires Synced(enc, w)
    ensures var us := Unmarked(ScanLog(w.file).records);
            && AllDecode(enc, us) && Increasing(us)
            && ApplyOps(EMPTY, Stamps(enc, us)) == Ok(w.db)
            && OpsOf(enc, w.file) == Stamps(enc, us)
            && OffsetsIncrease(Stamps(enc, us))
  {
    hide Synced, ReplayFrom, Decode, ApplyAll, ScanFrom, Sound;
    SyncedLog(enc, w);
    var ls := ScanLog(w.file).records;
    var applied := ReplayIsApply(enc, EMPTY, ls);
    assert applied + [] == applied;
    ApplyIsOps(enc, EMPTY, applied);
    LogIncreases(w.file);
    UnmarkedWithin(ls);
  }

  lemma KeptUnmarkedWithin(enc: Encoder, st: State, ls: seq<Located>)
    requires Increasing(ls)
    ensures Increasing(KeptLog(enc, st, ls))
    ensures forall l :: l in KeptLog(enc, st, ls) ==> !IsMarker(l)
  {
    hide KeepRecord, IsMarker;
    KeptUnmarked(enc, st, ls);
    KeptWithin(enc, st, ls);
    KeptWithin(enc, st, Unmarked(ls));
    UnmarkedWithin(ls);
  }

  lemma ScanRelocated(header: seq<byte>, ls: seq<Located>)
    requires |header| == FILE_HEADER_BYTES
    ensures var file := header + EncodeAll(RecordsIn(ls));
            ScanLog(file) == Scan(Relocated(ls), |file|, Clean)
  {
    hide ScanFrom, EncodeAll;
    HeaderClean(header);
    ScanAppendAll(header, RecordsIn(ls));
    assert [] + Relocated(ls) == Relocated(ls);
  }

  lemma ReplayRelocated(enc: Encoder, ls: seq<Located>)
    requires Increasing(ls) && AllDecode(enc, ls) && forall l :: l in ls ==> !IsMarker(l)
    ensures ReplayLog(enc, Relocated(ls)) == match ApplyOps(EMPTY, Move(Stamps(enc, ls), Moves(ls)))
                                             case Ok(db) => Ok(Replayed(db, None))
                                             case Err(e) => Err(e)
  {
    hide Decode, ApplyAll, ApplyOps, Moves, Move, Increasing, ReplayFrom;
    RelocatedStamps(enc, ls);
    MovesAreRelocations(ls);
    forall l | l in Relocated(ls)
      ensures !IsMarker(l)
    {
      var i :| 0 <= i < |ls| && Relocated(ls)[i] == l;
      assert ls[i] in ls && l.record == ls[i].record;
    }
    ReplayUnmarked(enc, Relocated(ls));
    OpsIsApply(enc, EMPTY, Relocated(ls));
  }

  /** What opening a file of relocated records means. */
  lemma OpenRelocated(enc: Encoder, header: seq<byte>, ls: seq<Located>)
    requires |header| == FILE_HEADER_BYTES && Increasing(ls) && AllDecode(enc, ls) && forall l :: l in ls ==> !IsMarker(l)
    ensures var file := header + EncodeAll(RecordsIn(ls));
            var r := ApplyOps(EMPTY, Move(Stamps(enc, ls), Moves(ls)));
            && OpenFile(enc, file).Ok? == r.Ok?
            && (r.Ok? ==> OpenFile(enc, file) == Ok(Opened(r.value, false, file, false)))
  {
    hide Decode, ApplyOps, Moves, Move, Increasing, ScanFrom, ReplayFrom, EncodeAll, IsMarker;
    var file := header + EncodeAll(RecordsIn(ls));
    ScanRelocated(header, ls);
    ReplayRelocated(enc, ls);
    OpenLog(enc, file);
    assert file[..|file|] == file;
  }

  lemma HeaderClean(header: seq<byte>)
    requires |header| == FILE_HEADER_BYTES
    ensures ScanLog(header) == Scan([], |header|, Clean)
  {
    StepAtEnd(header);
  }

  /**
   The compacted file opens exactly when the index records it keeps agree with the indexes as
   they are, and then as the state compaction left in memory.
   */
  lemma CompactedOpens(enc: Encoder, w: World)
    requires Synced(enc, w) && IdsNeverReused(OpsOf(enc, w.file))
    ensures KeptIndexesAgree(w.db, OpsOf(enc, w.file)) ==>
              OpenFile(enc, Compact(enc, w).file) == Ok(Opened(Compact(enc, w).db, false, Compact(enc, w).file, false))
    ensures !KeptIndexesAgree(w.db, OpsOf(enc, w.file)) ==> OpenFile(enc, Compact(enc, w).file).Err?
  {
    hide OpenFile, Decode, ApplyOps, Moves, Move, Increasing, ScanFrom, KeptIndexesAgree, AllUnique, NamesConsistent;
    hide IdsNeverReused, OffsetsIncrease, Kept, Unmarked, AllDecode, KeptLog, RelocateState;
    var ls := ScanLog(w.file).records;
    var us, kl := Unmarked(ls), KeptLog(enc, w.db, ls);
    SyncedOps(enc, w);
    SyncedWell(enc, w);
    KeptUnmarked(enc, w.db, ls);
    KeptStamps(enc, w.db, us);
    LogIncreases(w.file);
    KeptUnmarkedWithin(enc, w.db, ls);
    OpenRelocated(enc, w.file[..FILE_HEADER_BYTES], kl);
    CompactionExact(w.db, Stamps(enc, us), Moves(kl));
  }

  lemma SyncedWell(enc: Encoder, w: World)
    requires Synced(enc, w) && IdsNeverReused(OpsOf(enc, w.file))
    ensures WellLogged(w.db, OpsOf(enc, w.file))
  {
    hide OpenFile, AllUnique, NamesConsistent, OpsOf, ApplyOps, OffsetsIncrease, IdsNeverReused;
    SyncedOps(enc, w);
  }

  // ---------------------------------------------------------------------------
  // Compaction keeps file and memory in step
  // ---------------------------------------------------------------------------

  lemma RelocateKeepsUnique(c: Collection, mv: map<nat, nat>)
    requires UniqueHolds(c)
    ensures UniqueHolds(Relocate(c, mv))
  {
    hide KeyOf, Postings;
  }

  lemma RelocateKeeps(st: State, mv: map<nat, nat>)
    requires AllUnique(st) && NamesConsistent(st)
    ensures AllUnique(RelocateState(st, mv)) && NamesConsistent(RelocateState(st, mv))
  {
    hide UniqueHolds, Postings;
    forall cid | cid in st.collections
      ensures UniqueHolds(Relocate(st.collections[cid], mv))
    {
      RelocateKeepsUnique(st.collections[cid], mv);
    }
  }

  /** After compaction, as before, opening the file gives the state in memory. */
  lemma CompactionSynced(enc: Encoder, w: World)
    requires Synced(enc, w) && IdsNeverReused(OpsOf(enc, w.file)) && KeptIndexesAgree(w.db, OpsOf(enc, w.file))
    ensures Synced(enc, Compact(enc, w))
    ensures IdsNeverReused(OpsOf(enc, Compact(enc, w).file)) && KeptIndexesAgree(Compact(enc, w).db, OpsOf(enc, Compact(enc, w).file))
  {
    hide OpenFile, AllUnique, NamesConsistent, IdsNeverReused, KeptIndexesAgree, Moves, KeptLog, OpsOf, RelocateState, CompactedFile;
    CompactedOpens(enc, w);
    RelocateKeeps(w.db, Moves(KeptLog(enc, w.db, ScanLog(w.file).records)));
    assert |Compact(enc, w).file| >= FILE_HEADER_BYTES by { HeaderKept(enc, w); }
    CompactedOps(enc, w);
    assert IdsNeverReused(OpsOf(enc, Compact(enc, w).file)) by {
      KeptInOrder(w.db, OpsOf(enc, w.file));
      MoveInOrder(Kept(w.db, OpsOf(enc, w.file)), Moves(KeptLog(enc, w.db, ScanLog(w.file).records)));
    }
    MoveAgrees(w.db, OpsOf(enc, w.file), Moves(KeptLog(enc, w.db, ScanLog(w.file).records)));
  }

  lemma HeaderKept(enc: Encoder, w: World)
    requires |w.file| >= FILE_HEADER_BYTES
    ensures |Compact(enc, w).file| >= FILE_HEADER_BYTES
  {
    hide EncodeAll, KeptLog;
  }

  lemma MoveAgrees(st: State, ss: seq<Stamped>, mv: map<nat, nat>)
    requires KeptIndexesAgree(st, ss)
    ensures KeptIndexesAgree(RelocateState(st, mv), Move(Kept(st, ss), mv))
  {
    hide Postings, Kept;
    var ks := Kept(st, ss);
    forall m | m in Move(ks, mv) && m.op.CreateIndex? && Keep(RelocateState(st, mv), m)
      ensures var index := RelocateState(st, mv).collections[m.op.collectionId].indexes[m.op.field];
              index.kind == m.op.kind && index.unique == m.op.unique
    {
      var i :| 0 <= i < |ks| && Move(ks, mv)[i] == m;
      assert ks[i] in ks;
    }
  }

  /** The operations of the compacted file. */
  lemma CompactedOps(enc: Encoder, w: World)
    requires Synced(enc, w)
    ensures |Compact(enc, w).file| >= FILE_HEADER_BYTES
    ensures ScanLog(Compact(enc, w).file) == Scan(Relocated(KeptLog(enc, w.db, ScanLog(w.file).records)), |Compact(enc, w).file|, Clean)
    ensures OpsOf(enc, Compact(enc, w).file) == Move(Kept(w.db, OpsOf(enc, w.file)), Moves(KeptLog(enc, w.db, ScanLog(w.file).records)))
  {
    hide Synced, Decode, ApplyOps, Moves, Move, Increasing, ScanFrom, Kept, Unmarked, AllDecode, KeptLog, RelocateState, EncodeAll, IsMarker;
    SyncedHeader(enc, w);
    var ls := ScanLog(w.file).records;
    var us, kl := Unmarked(ls), KeptLog(enc, w.db, ls);
    SyncedOps(enc, w);
    KeptUnmarked(enc, w.db, ls);
    KeptStamps(enc, w.db, us);
    LogIncreases(w.file);
    KeptUnmarkedWithin(enc, w.db, ls);
    ScanRelocated(w.file[..FILE_HEADER_BYTES], kl);
    RelocatedStamps(enc, kl);
    RelocatedUnmarked(kl);
  }

  lemma RelocatedUnmarked(ls: seq<Located>)
    requires Increasing(ls) && forall l :: l in ls ==> !IsMarker(l)
    ensures Unmarked(Relocated(ls)) == Relocated(ls)
  {
    hide IsMarker, Increasing, Moves;
    MovesAreRelocations(ls);
    forall l | l in Relocated(ls)
      ensures !IsMarker(l)
    {
      var i :| 0 <= i < |ls| && Relocated(ls)[i] == l;
      assert ls[i] in ls;
      SameMarker(l, ls[i]);
    }
    UnmarkedAll(Relocated(ls));
  }

  lemma SameMarker(l: Located, m: Located)
    requires l.record == m.record
    ensures IsMarker(l) <==> IsMarker(m)
  {
  }

  lemma {:induction false} UnmarkedAll(ls: seq<Located>)
    requires forall l :: l in ls ==> !IsMarker(l)
    ensures Unmarked(ls) == ls
    decreases |ls|
  {
    hide IsMarker;
    if |ls| > 0 {
      assert ls[|ls| - 1] in ls;
      UnmarkedAll(ls[..|ls| - 1]);
    }
  }

  // ---------------------------------------------------------------------------
  // Space accounting and idempotence
  // ---------------------------------------------------------------------------

  datatype Stats = Stats(operationCount: nat, tombstoneCount: nat, liveBytes: nat, deadBytes: nat)

  function Accumulate(s: Stats, live: bool, byteLength: nat): Stats {
    if live then s.(operationCount := s.operationCount + 1, liveBytes := s.liveBytes + byteLength)
    else s.(operationCount := s.operationCount + 1, deadBytes := s.deadBytes + byteLength, tombstoneCount := s.tombstoneCount + 1)
  }

  /** The scan of `computeStorageStats`. */
  function Tally(enc: Encoder, st: State, ls: seq<Located>): Stats {
    if |ls| == 0 then Stats(0, 0, 0, 0)
    else
      var l := ls[|ls| - 1];
      Accumulate(Tally(enc, st, ls[..|ls| - 1]), KeepRecord(enc, st, l), l.record.Length())
  }

  lemma {:induction false} TallyAddsUp(enc: Encoder, st: State, ls: seq<Located>)
    ensures var t := Tally(enc, st, ls);
            && t.operationCount == |ls| && t.tombstoneCount == |ls| - |KeptLog(enc, st, ls)|
            && t.liveBytes == Size(KeptLog(enc, st, ls)) && t.liveBytes + t.deadBytes == Size(ls)
    decreases |ls|
  {
    hide KeepRecord;
    if |ls| > 0 {
      var n := |ls| - 1;
      TallyAddsUp(enc, st, ls[..n]);
      if KeepRecord(enc, st, ls[n]) {
        var ks := KeptLog(enc, st, ls);
        assert ks[..|ks| - 1] == KeptLog(enc, st, ls[..n]);
      } else {
        assert KeptLog(enc, st, ls) == KeptLog(enc, st, ls[..n]);
      }
    }
  }

  lemma {:induction false} SizeFirst(l: Located, rest: seq<Located>)
    ensures Size([l] + rest) == l.record.Length() + Size(rest)
    decreases |rest|
  {
    if |rest| == 0 {
      assert [l] + rest == [l] && [l][..0] == [];
    } else {
      var n := |rest| - 1;
      SizeFirst(l, rest[..n]);
      assert ([l] + rest)[..n + 1] == [l] + rest[..n];
    }
  }

  /** The records of a clean log fill it. */
  lemma {:induction false} CleanLogSize(file: seq<byte>, offset: nat)
    requires offset <= |file| && ScanFrom(file, offset).status.Clean?
    ensures offset + Size(ScanFrom(file, offset).records) == |file|
    decreases |file| - offset
  {
    hide StepAt;
    if StepAt(file, offset).Next? {
      var r := StepAt(file, offset).record;
      CleanLogSize(file, offset + r.Length());
      SizeFirst(Located(offset, r), ScanFrom(file, offset + r.Length()).records);
    }
  }

  /**
   Header, live and dead bytes make up the file; compaction removes exactly the dead ones. On a record that does not
   decode the source throws instead.
   */
  lemma SpaceAccounting(enc: Encoder, w: World)
    requires |w.file| >= FILE_HEADER_BYTES && ScanLog(w.file).status.Clean? && AllDecode(enc, ScanLog(w.file).records)
    ensures var t := Tally(enc, w.db, ScanLog(w.file).records);
            && FILE_HEADER_BYTES + t.liveBytes + t.deadBytes == |w.file|
            && |Compact(enc, w).file| == |w.file| - t.deadBytes
  {
    hide ScanFrom, Increasing, KeptLog, EncodeAll, RelocateState, Moves, Relocated;
    var ls := ScanLog(w.file).records;
    CleanLogSize(w.file, FILE_HEADER_BYTES);
    TallyAddsUp(enc, w.db, ls);
    LogIncreases(w.file);
    KeptWithin(enc, w.db, ls);
    MovesAreRelocations(KeptLog(enc, w.db, ls));
  }

  lemma KeepMoves(st: State, s: Stamped, mv: map<nat, nat>)
    requires Keep(st, s)
    ensures Keep(RelocateState(st, mv), Stamped(MovedOffset(mv, s.offset), s.op))
  {
    hide Postings;
  }

  lemma {:induction false} KeptAll(enc: Encoder, st: State, ls: seq<Located>)
    requires forall l :: l in ls ==> KeepRecord(enc, st, l)
    ensures KeptLog(enc, st, ls) == ls
    decreases |ls|
  {
    hide KeepRecord;
    if |ls| > 0 {
      assert ls[|ls| - 1] in ls;
      KeptAll(enc, st, ls[..|ls| - 1]);
    }
  }

  /** Every record of the compacted file is live in the memory compaction leaves. */
  lemma RelocatedLive(enc: Encoder, st: State, kl: seq<Located>)
    requires Increasing(kl) && forall l :: l in kl ==> KeepRecord(enc, st, l)
    ensures forall l :: l in Relocated(kl) ==> KeepRecord(enc, RelocateState(st, Moves(kl)), l)
  {
    hide Increasing, RelocateState, Relocated, Decode, Keep, Moves;
    MovesAreRelocations(kl);
    var nl := Relocated(kl);
    forall l | l in nl
      ensures KeepRecord(enc, RelocateState(st, Moves(kl)), l)
    {
      var i :| 0 <= i < |nl| && nl[i] == l;
      assert kl[i] in kl;
      if Decode(enc, l.record).Ok? {
        KeepMoves(st, Stamped(kl[i].offset, Decode(enc, l.record).value), Moves(kl));
      }
    }
  }

  lemma SameRecords(kl: seq<Located>)
    requires Increasing(kl)
    ensures RecordsIn(Relocated(kl)) == RecordsIn(kl)
  {
    hide Increasing, Moves, Relocated;
    MovesAreRelocations(kl);
  }

  /** Nothing is dead after compaction: compacting again changes no byte. */
  lemma CompactionIdempotent(enc: Encoder, w: World)
    requires Synced(enc, w)
    ensures |Compact(enc, w).file| >= FILE_HEADER_BYTES
    ensures Tally(enc, Compact(enc, w).db, ScanLog(Compact(enc, w).file).records).tombstoneCount == 0
    ensures Compact(enc, Compact(enc, w)).file == Compact(enc, w).file
  {
    hide Synced, ScanFrom, Increasing, EncodeAll, RelocateState, KeepRecord, KeptLog, Moves, Relocated, RecordsIn, Tally;
    SyncedHeader(enc, w);
    var kl := KeptLog(enc, w.db, ScanLog(w.file).records);
    CompactedOps(enc, w);
    LogIncreases(w.file);
    KeptWithin(enc, w.db, ScanLog(w.file).records);
    RelocatedLive(enc, w.db, kl);
    KeptAll(enc, Compact(enc, w).db, Relocated(kl));
    TallyAddsUp(enc, Compact(enc, w).db, Relocated(kl));
    SameRecords(kl);
    assert Compact(enc, w).file[..FILE_HEADER_BYTES] == w.file[..FILE_HEADER_BYTES];
  }
}
