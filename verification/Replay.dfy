/** Rebuilding the state from the log: transactions are staged and applied at their commit. */
module Replay {
  import opened Bytes
  import opened Records
  import opened LogScan
  import opened Documents
  import opened Payloads
  import opened Operations
  import opened DatabaseState

  datatype Replayed = Replayed(db: State, staged: Option<seq<Located>>)

  function ApplyRecord(enc: Encoder, st: State, l: Located): Result<State> {
    var op :- Decode(enc, l.record);
    Apply(st, op, l.offset)
  }

  function ApplyAll(enc: Encoder, st: State, ls: seq<Located>): Result<State> {
    if |ls| == 0 then Ok(st)
    else
      var before :- ApplyAll(enc, st, ls[..|ls| - 1]);
      ApplyRecord(enc, before, ls[|ls| - 1])
  }

  function Consume(enc: Encoder, r: Replayed, l: Located): Result<Replayed> {
    if l.record.identifier == TRANSACTION_BEGIN then
      if r.staged.Some? then Err("Invalid transaction operation: nested transaction begin.")
      else Ok(r.(staged := Some([])))
    else if l.record.identifier == TRANSACTION_COMMIT then
      if r.staged.None? then Err("Invalid transaction operation: commit without begin.")
      else
        var db :- ApplyAll(enc, r.db, r.staged.value);
        Ok(Replayed(db, None))
    else if r.staged.Some? then Ok(r.(staged := Some(r.staged.value + [l])))
    else
      var db :- ApplyRecord(enc, r.db, l);
      Ok(r.(db := db))
  }

  function ReplayFrom(enc: Encoder, start: Replayed, ls: seq<Located>): Result<Replayed> {
    if |ls| == 0 then Ok(start)
    else
      var before :- ReplayFrom(enc, start, ls[..|ls| - 1]);
      Consume(enc, before, ls[|ls| - 1])
  }

  function ReplayLog(enc: Encoder, ls: seq<Located>): Result<Replayed> {
    ReplayFrom(enc, Replayed(EMPTY, None), ls)
  }

  /** A database just opened: its state, whether a transaction is still open at the end of the log, its file. */
  datatype Opened = Opened(db: State, openTransaction: bool, file: seq<byte>, recovered: bool)

  function OpenFile(enc: Encoder, file: seq<byte>): Result<Opened>
    requires |file| >= FILE_HEADER_BYTES
  {
    var s := ScanLog(file);
    if s.status.Corrupted? then Err("Invalid operation record: CRC32 checksum mismatch.")
    else
      var r :- ReplayLog(enc, s.records);
      Ok(Opened(r.db, r.staged.Some?, file[..s.stop], s.status.TornTail?))
  }

  /** Opening cuts the file where reading stopped, and says so exactly if something was cut. */
  lemma OpenedFile(enc: Encoder, file: seq<byte>)
    requires |file| >= FILE_HEADER_BYTES && OpenFile(enc, file).Ok?
    ensures var after := OpenFile(enc, file).value;
            after.file <= file && |after.file| >= FILE_HEADER_BYTES && (after.recovered <==> after.file != file)
  {
    hide ScanFrom, ReplayLog;
    TornIsShorter(file, FILE_HEADER_BYTES);
    var s := ScanLog(file);
    assert file[..s.stop] <= file && |file[..s.stop]| == s.stop;
  }

  lemma {:induction false} TornIsShorter(file: seq<byte>, offset: nat)
    requires offset <= |file|
    ensures ScanFrom(file, offset).status.TornTail? ==> ScanFrom(file, offset).stop < |file|
    decreases |file| - offset
  {
    hide ReadRecord;
    var step := StepAt(file, offset);
    if step.Next? {
      TornIsShorter(file, offset + step.record.Length());
    }
  }

  lemma {:induction false} ReplaySplits(enc: Encoder, start: Replayed, ls: seq<Located>, ms: seq<Located>)
    ensures var first := ReplayFrom(enc, start, ls);
            ReplayFrom(enc, start, ls + ms) == if first.Ok? then ReplayFrom(enc, first.value, ms) else first
    decreases |ms|
  {
    hide Consume;
    if |ms| == 0 {
      assert ls + ms == ls;
    } else {
      var n := |ls + ms| - 1;
      assert (ls + ms)[..n] == ls + ms[..|ms| - 1];
      ReplaySplits(enc, start, ls, ms[..|ms| - 1]);
    }
  }

  /** A marker opens or closes a transaction; nothing else does. */
  predicate IsMarker(l: Located) {
    l.record.identifier == TRANSACTION_BEGIN || l.record.identifier == TRANSACTION_COMMIT
  }

  /** Within a transaction, records are only collected. */
  lemma {:induction false} ReplayStages(enc: Encoder, st: State, staged: seq<Located>, ls: seq<Located>)
    requires forall l :: l in ls ==> !IsMarker(l)
    ensures ReplayFrom(enc, Replayed(st, Some(staged)), ls) == Ok(Replayed(st, Some(staged + ls)))
    decreases |ls|
  {
    hide ApplyAll, ApplyRecord;
    if |ls| == 0 {
      assert staged + ls == staged;
    } else {
      var n := |ls| - 1;
      assert ls[n] in ls && !IsMarker(ls[n]);
      ReplayStages(enc, st, staged, ls[..n]);
      assert staged + ls[..n] + [ls[n]] == staged + ls;
    }
  }
}
