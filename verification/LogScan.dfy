/**
 What reading a log from front to back means, independent of chunks and windows: the
 records found, where the reading stopped, and why. Proved about logs cut or damaged anywhere.
 */
module LogScan {
  import opened Bytes
  import opened Records

  datatype Located = Located(offset: nat, record: ValidRecord)

  /** What stands at one offset of a file. */
  datatype Step =
    | End
    | Next(record: Record)
    | Torn     // incomplete, or undecodable as the very last record
    | Corrupt  // undecodable with more bytes after it

  function StepAt(file: seq<byte>, offset: nat): (s: Step)
    requires offset <= |file|
    ensures s.Next? ==> s.record.Valid() && offset + s.record.Length() <= |file|
  {
    if offset == |file| then End
    else if offset + OPERATION_HEADER_BYTES > |file| then Torn
    else
      var recordLength := OPERATION_HEADER_BYTES + ReadU32BE(file, offset + OPERATION_IDENTIFIER_BYTES) + OPERATION_CRC32_BYTES;
      if offset + recordLength > |file| then Torn
      else match ReadRecord(file, offset)
        case Ok(record) => Next(record)
        case Err(_) => if offset + recordLength >= |file| then Torn else Corrupt
  }

  datatype Status = Clean | TornTail | Corrupted

  datatype Scan = Scan(records: seq<Located>, stop: nat, status: Status)

  function ScanFrom(file: seq<byte>, offset: nat): (s: Scan)
    requires offset <= |file|
    ensures offset <= s.stop <= |file| && (s.status.Clean? ==> s.stop == |file|)
    decreases |file| - offset
  {
    match StepAt(file, offset)
    case End => Scan([], offset, Clean)
    case Torn => Scan([], offset, TornTail)
    case Corrupt => Scan([], offset, Corrupted)
    case Next(record) =>
      var rest := ScanFrom(file, offset + record.Length());
      rest.(records := [Located(offset, record)] + rest.records)
  }

  /** The whole log of a file with a complete header. */
  function ScanLog(file: seq<byte>): (s: Scan)
    requires |file| >= FILE_HEADER_BYTES
    ensures FILE_HEADER_BYTES <= s.stop <= |file|
  {
    ScanFrom(file, FILE_HEADER_BYTES)
  }

  // ---------------------------------------------------------------------------
  // Logs as written: the encodings of valid records, one after the other
  // ---------------------------------------------------------------------------

  function EncodeAll(rs: seq<ValidRecord>): seq<byte> {
    if |rs| == 0 then [] else rs[0].Encoded() + EncodeAll(rs[1..])
  }

  function Locate(rs: seq<ValidRecord>, base: nat): (ls: seq<Located>)
    ensures |ls| == |rs|
    ensures forall i :: 0 <= i < |rs| ==> ls[i].record == rs[i]
  {
    if |rs| == 0 then [] else [Located(base, rs[0])] + Locate(rs[1..], base + rs[0].Length())
  }

  /** Reading at a record boundary finds the record. */
  lemma StepAtRecord(file: seq<byte>, offset: nat, r: ValidRecord)
    requires offset + r.Length() <= |file| && file[offset..offset + r.Length()] == r.Encoded()
    ensures StepAt(file, offset) == Next(r)
  {
    hide Record.Encoded, ReadRecord;
    ReadBack(file, offset, r);
    LengthField(file, offset, r);
  }

  lemma LengthField(file: seq<byte>, offset: nat, r: ValidRecord)
    requires offset + 8 <= |file| && r.Encoded()[..8] == file[offset..offset + 8]
    ensures ReadU32BE(file, offset + 4) == |r.payload|
  {
    hide Crc32.Checksum, U32BE;
    assert file[offset + 4..offset + 8] == file[offset..offset + 8][4..8] == U32BE(|r.payload|);
    ReadEncodedU32(file, offset + 4, |r.payload|);
  }

  /** A proper prefix of a record at the end of the file is a torn tail. */
  lemma StepAtTorn(file: seq<byte>, offset: nat, r: ValidRecord)
    requires offset < |file| < offset + r.Length() && file[offset..] == r.Encoded()[..|file| - offset]
    ensures StepAt(file, offset) == Torn
  {
    hide Record.Encoded, ReadRecord;
    if offset + 8 <= |file| {
      assert file[offset..offset + 8] == file[offset..][..8];
      LengthField(file, offset, r);
    }
  }

  predicate HoldsAt(file: seq<byte>, offset: nat, rs: seq<ValidRecord>) {
    var n := |EncodeAll(rs)|;
    offset + n <= |file| && file[offset..offset + n] == EncodeAll(rs)
  }

  lemma HoldsFirst(file: seq<byte>, offset: nat, rs: seq<ValidRecord>)
    requires |rs| > 0 && HoldsAt(file, offset, rs)
    ensures offset + rs[0].Length() <= |file|
    ensures file[offset..offset + rs[0].Length()] == rs[0].Encoded()
    ensures HoldsAt(file, offset + rs[0].Length(), rs[1..])
  {
    hide Record.Encoded;
    var n, m := |EncodeAll(rs)|, rs[0].Length();
    SliceOfSlice(file, offset, n, 0, m);
    SliceOfSlice(file, offset, n, m, n);
    assert EncodeAll(rs)[..m] == rs[0].Encoded() && EncodeAll(rs)[m..n] == EncodeAll(rs[1..]);
  }

  lemma LocateFirst(r: ValidRecord, rs: seq<ValidRecord>, base: nat)
    ensures Locate([r] + rs, base) == [Located(base, r)] + Locate(rs, base + r.Length())
    ensures EncodeAll([r] + rs) == r.Encoded() + EncodeAll(rs)
  {
    hide Record.Encoded;
    assert ([r] + rs)[1..] == rs;
  }

  /** Reading from `offset` finds exactly these records, then what stands behind them. */
  predicate Finds(file: seq<byte>, offset: nat, rs: seq<ValidRecord>)
    requires offset + |EncodeAll(rs)| <= |file|
  {
    var rest := ScanFrom(file, offset + |EncodeAll(rs)|);
    ScanFrom(file, offset) == rest.(records := Locate(rs, offset) + rest.records)
  }

  /** Reading encoded records yields exactly them, then goes on with what follows. */
  lemma {:induction false} ScanEncoded(file: seq<byte>, offset: nat, rs: seq<ValidRecord>)
    requires HoldsAt(file, offset, rs)
    ensures Finds(file, offset, rs)
    decreases |rs|
  {
    hide Record.Encoded, EncodeAll, Locate, StepAt;
    if |rs| == 0 {
      LocateNone(offset);
      assert offset + |EncodeAll(rs)| == offset;
    } else {
      HoldsFirst(file, offset, rs);
      StepAtRecord(file, offset, rs[0]);
      ScanEncoded(file, offset + rs[0].Length(), rs[1..]);
      FindsFirst(file, offset, rs);
    }
  }

  lemma {:induction false} FindsFirst(file: seq<byte>, offset: nat, rs: seq<ValidRecord>)
    requires |rs| > 0 && offset + rs[0].Length() + |EncodeAll(rs[1..])| <= |file| && StepAt(file, offset) == Next(rs[0])
    requires Finds(file, offset + rs[0].Length(), rs[1..])
    ensures offset + |EncodeAll(rs)| <= |file| && Finds(file, offset, rs)
  {
    hide Record.Encoded, EncodeAll, Locate, StepAt;
    assert rs == [rs[0]] + rs[1..];
    LocateFirst(rs[0], rs[1..], offset);
    assert offset + |EncodeAll(rs)| == offset + rs[0].Length() + |EncodeAll(rs[1..])|;
  }

  lemma LocateNone(base: nat)
    ensures Locate([], base) == [] && EncodeAll([]) == []
  {
  }

  /** How many of the records lie wholly in the first `n` bytes. */
  function WholeRecords(rs: seq<ValidRecord>, n: nat): (k: nat)
    ensures k <= |rs|
  {
    if |rs| == 0 || n < rs[0].Length() then 0 else 1 + WholeRecords(rs[1..], n - rs[0].Length())
  }

  lemma {:induction false} EncodeAllAppend(rs: seq<ValidRecord>, ts: seq<ValidRecord>)
    ensures EncodeAll(rs + ts) == EncodeAll(rs) + EncodeAll(ts)
    decreases |rs|
  {
    hide Record.Encoded;
    if |rs| == 0 {
      assert rs + ts == ts;
    } else {
      assert (rs + ts)[1..] == rs[1..] + ts;
      EncodeAllAppend(rs[1..], ts);
    }
  }

  lemma {:induction false} LocateAppend(rs: seq<ValidRecord>, ts: seq<ValidRecord>, base: nat)
    ensures Locate(rs + ts, base) == Locate(rs, base) + Locate(ts, base + |EncodeAll(rs)|)
    decreases |rs|
  {
    hide Record.Encoded;
    if |rs| == 0 {
      assert rs + ts == ts;
    } else {
      assert (rs + ts)[1..] == rs[1..] + ts;
      LocateAppend(rs[1..], ts, base + rs[0].Length());
    }
  }

  lemma {:induction false} WholeRecordsExact(rs: seq<ValidRecord>, n: nat)
    ensures var k := WholeRecords(rs, n);
            |EncodeAll(rs[..k])| <= n && (k < |rs| ==> n < |EncodeAll(rs[..k + 1])|)
    decreases |rs|
  {
    hide Record.Encoded;
    if |rs| > 0 && rs[0].Length() <= n {
      var k := WholeRecords(rs, n);
      WholeRecordsExact(rs[1..], n - rs[0].Length());
      assert rs[..k][1..] == rs[1..][..k - 1];
      if k < |rs| {
        assert rs[..k + 1][1..] == rs[1..][..k];
      }
    } else if |rs| > 0 {
      assert rs[..1][1..] == [];
    }
  }

  lemma WholeFirst(rs: seq<ValidRecord>, n: nat)
    requires |rs| > 0 && rs[0].Length() <= n
    ensures rs[..WholeRecords(rs, n)] == [rs[0]] + rs[1..][..WholeRecords(rs[1..], n - rs[0].Length())]
  {
  }

  /** Reading finds exactly the records that lie wholly before the end of the file, and reports the cut. */
  predicate FindsWhole(file: seq<byte>, offset: nat, rs: seq<ValidRecord>)
    requires offset <= |file|
  {
    var whole := rs[..WholeRecords(rs, |file| - offset)];
    var stop := offset + |EncodeAll(whole)|;
    ScanFrom(file, offset) == Scan(Locate(whole, offset), stop, if stop == |file| then Clean else TornTail)
  }

  /** A log cut at any byte: exactly the records wholly present are found, and the cut shows. */
  lemma {:induction false} ScanCut(file: seq<byte>, offset: nat, rs: seq<ValidRecord>)
    requires offset <= |file| <= offset + |EncodeAll(rs)|
    requires file[offset..] == EncodeAll(rs)[..|file| - offset]
    ensures FindsWhole(file, offset, rs)
    decreases |rs|
  {
    hide Record.Encoded, FindsWhole;
    if |file| == offset || |file| - offset < rs[0].Length() {
      CutInFirst(file, offset, rs);
    } else {
      CutFirst(file, offset, rs);
      ScanCut(file, offset + rs[0].Length(), rs[1..]);
      StepAtRecord(file, offset, rs[0]);
      CutBehind(file, offset, rs);
    }
  }

  /** The first record is whole: it is found, and the rest as the rest is. */
  lemma {:induction false} CutBehind(file: seq<byte>, offset: nat, rs: seq<ValidRecord>)
    requires |rs| > 0 && offset + rs[0].Length() <= |file| && StepAt(file, offset) == Next(rs[0])
    requires FindsWhole(file, offset + rs[0].Length(), rs[1..])
    ensures FindsWhole(file, offset, rs)
  {
    hide Record.Encoded, StepAt, WholeRecords, EncodeAll, Locate;
    var r, n := rs[0], |file| - offset;
    assert |file| - (offset + r.Length()) == n - r.Length();
    WholeFirst(rs, n);
    LocateFirst(r, rs[1..][..WholeRecords(rs[1..], n - r.Length())], offset);
  }

  /** The cut lies in the first record: nothing is found. */
  lemma CutInFirst(file: seq<byte>, offset: nat, rs: seq<ValidRecord>)
    requires offset <= |file| <= offset + |EncodeAll(rs)|
    requires file[offset..] == EncodeAll(rs)[..|file| - offset]
    requires |file| > offset ==> |file| - offset < rs[0].Length()
    ensures FindsWhole(file, offset, rs)
  {
    hide Record.Encoded, StepAt;
    if |file| == offset {
      StepAtEnd(file);
    } else {
      assert file[offset..] == rs[0].Encoded()[..|file| - offset];
      StepAtTorn(file, offset, rs[0]);
    }
  }

  lemma StepAtEnd(file: seq<byte>)
    ensures StepAt(file, |file|) == End
  {
  }

  lemma CutFirst(file: seq<byte>, offset: nat, rs: seq<ValidRecord>)
    requires |rs| > 0 && offset + rs[0].Length() <= |file| <= offset + |EncodeAll(rs)|
    requires file[offset..] == EncodeAll(rs)[..|file| - offset]
    ensures var next := offset + rs[0].Length();
            file[offset..next] == rs[0].Encoded() && file[next..] == EncodeAll(rs[1..])[..|file| - next]
  {
    hide Record.Encoded;
    var m := rs[0].Length();
    assert file[offset..offset + m] == file[offset..][..m] == EncodeAll(rs)[..m];
    assert file[offset + m..] == file[offset..][m..];
  }

  // ---------------------------------------------------------------------------
  // Any file: what is read depends only on the bytes read
  // ---------------------------------------------------------------------------

  lemma ReadU32Stable(f: seq<byte>, g: seq<byte>, offset: nat)
    requires offset + 8 <= |f| && offset + 8 <= |g| && f[offset..offset + 8] == g[offset..offset + 8]
    ensures ReadU32BE(g, offset + 4) == ReadU32BE(f, offset + 4)
  {
    hide FromBytesBE;
    var p, q := f[offset..offset + 8], g[offset..offset + 8];
    assert p[4] == f[offset + 4] && p[5] == f[offset + 5] && p[6] == f[offset + 6] && p[7] == f[offset + 7];
    assert q[4] == g[offset + 4] && q[5] == g[offset + 5] && q[6] == g[offset + 6] && q[7] == g[offset + 7];
  }

  lemma LengthOfRead(f: seq<byte>, offset: nat)
    requires ReadRecord(f, offset).Ok?
    ensures ReadRecord(f, offset).value.Length() == 12 + ReadU32BE(f, offset + 4)
  {
    hide Crc32.Checksum, FromBytesBE;
    var r := ReadRecord(f, offset).value;
    var covered := f[offset..offset + 8 + ReadU32BE(f, offset + 4)];
    SliceOfSlice(f, offset, |covered|, 0, 8);
    assert covered[0..0 + 8] == f[offset..offset + 8];
    assert covered[4] == f[offset + 4] && covered[5] == f[offset + 5] && covered[6] == f[offset + 6] && covered[7] == f[offset + 7];
  }

  lemma ReadStable(f: seq<byte>, g: seq<byte>, offset: nat)
    requires ReadRecord(f, offset).Ok?
    requires var end := offset + ReadRecord(f, offset).value.Length();
             end <= |g| && f[offset..end] == g[offset..end]
    ensures ReadRecord(g, offset) == ReadRecord(f, offset)
    ensures ReadU32BE(g, offset + 4) == ReadU32BE(f, offset + 4)
  {
    hide Crc32.Checksum, ReadU32BE, DecodeOperationRecord;
    LengthOfRead(f, offset);
    var n := ReadRecord(f, offset).value.Length();
    SliceOfSlice(f, offset, n, 0, 8);
    SliceOfSlice(g, offset, n, 0, 8);
    ReadU32Stable(f, g, offset);
    SliceOfSlice(f, offset, n, 0, n - 4);
    SliceOfSlice(g, offset, n, 0, n - 4);
    SliceOfSlice(f, offset, n, n - 4, n);
    SliceOfSlice(g, offset, n, n - 4, n);
  }

  /** Two files that agree on a record's bytes agree on the record. */
  lemma StepStable(f: seq<byte>, g: seq<byte>, offset: nat)
    requires offset <= |f| && StepAt(f, offset).Next?
    requires var end := offset + StepAt(f, offset).record.Length();
             end <= |g| && f[offset..end] == g[offset..end]
    ensures StepAt(g, offset) == StepAt(f, offset)
  {
    hide ReadRecord, ReadU32BE;
    LengthOfRead(f, offset);
    ReadStable(f, g, offset);
  }

  /** One step of reading, where a record stands. */
  lemma ScanNext(file: seq<byte>, offset: nat)
    requires offset <= |file| && StepAt(file, offset).Next?
    ensures var r := StepAt(file, offset).record;
            var rest := ScanFrom(file, offset + r.Length());
            ScanFrom(file, offset) == rest.(records := [Located(offset, r)] + rest.records)
  {
    hide StepAt;
  }

  lemma ScanStops(file: seq<byte>, offset: nat)
    requires offset <= |file| && !StepAt(file, offset).Next?
    ensures var status := match StepAt(file, offset) case End => Clean case Torn => TornTail case _ => Corrupted;
            ScanFrom(file, offset) == Scan([], offset, status)
  {
    hide StepAt;
  }

  /** Truncating at the torn tail leaves a clean log of the same records. */
  lemma {:induction false} ScanTruncated(file: seq<byte>, offset: nat)
    requires offset <= |file| && ScanFrom(file, offset).status.TornTail?
    ensures var s := ScanFrom(file, offset);
            ScanFrom(file[..s.stop], offset) == s.(status := Clean)
    decreases |file| - offset
  {
    hide StepAt;
    var s := ScanFrom(file, offset);
    var cut := file[..s.stop];
    if StepAt(file, offset).Next? {
      var r := StepAt(file, offset).record;
      var next := offset + r.Length();
      ScanTruncated(file, next);
      SliceOfSlice(file, 0, s.stop, offset, next);
      StepStable(file, cut, offset);
    } else {
      StepAtEnd(cut);
    }
  }

  /** Reading a file that extends a clean log reads that log, then goes on behind it. */
  lemma {:induction false} ScanContinues(file: seq<byte>, longer: seq<byte>, offset: nat)
    requires offset <= |file| <= |longer| && longer[..|file|] == file
    requires ScanFrom(file, offset).status.Clean?
    ensures var rest := ScanFrom(longer, |file|);
            ScanFrom(longer, offset) == rest.(records := ScanFrom(file, offset).records + rest.records)
    decreases |file| - offset
  {
    hide StepAt, ScanFrom;
    if StepAt(file, offset).Next? {
      var r := StepAt(file, offset).record;
      var next := offset + r.Length();
      ScanNext(file, offset);
      ScanContinues(file, longer, next);
      SliceOfSlice(longer, 0, |file|, offset, next);
      StepStable(file, longer, offset);
      ScanNext(longer, offset);
      var rest, behind := ScanFrom(file, next).records, ScanFrom(longer, |file|).records;
      assert [Located(offset, r)] + (rest + behind) == ([Located(offset, r)] + rest) + behind;
    } else {
      ScanStops(file, offset);
      assert [] + ScanFrom(longer, |file|).records == ScanFrom(longer, |file|).records;
    }
  }

  /** Appending records to a clean log appends them to what is read. */
  lemma ScanAppendAll(file: seq<byte>, rs: seq<ValidRecord>)
    requires |file| >= FILE_HEADER_BYTES && ScanLog(file).status.Clean?
    ensures var longer := file + EncodeAll(rs);
            ScanLog(longer) == Scan(ScanLog(file).records + Locate(rs, |file|), |longer|, Clean)
  {
    hide StepAt, EncodeAll, Locate;
    var longer := file + EncodeAll(rs);
    assert longer[..|file|] == file;
    ScanContinues(file, longer, FILE_HEADER_BYTES);
    assert longer[|file|..|file| + |EncodeAll(rs)|] == EncodeAll(rs);
    ScanEncoded(longer, |file|, rs);
    StepAtEnd(longer);
    assert Locate(rs, |file|) + [] == Locate(rs, |file|);
  }

  /** The same, when the appending was cut short at any byte. */
  lemma ScanAppendCut(file: seq<byte>, rs: seq<ValidRecord>, n: nat)
    requires |file| >= FILE_HEADER_BYTES && ScanLog(file).status.Clean? && n <= |EncodeAll(rs)|
    ensures var cut := file + EncodeAll(rs)[..n];
            var k := WholeRecords(rs, n);
            var stop := |file| + |EncodeAll(rs[..k])|;
            ScanLog(cut) == Scan(ScanLog(file).records + Locate(rs[..k], |file|), stop, if stop == |cut| then Clean else TornTail)
  {
    hide StepAt, EncodeAll, Locate, WholeRecords;
    var cut := file + EncodeAll(rs)[..n];
    assert cut[..|file|] == file;
    ScanContinues(file, cut, FILE_HEADER_BYTES);
    assert cut[|file|..] == EncodeAll(rs)[..|cut| - |file|];
    ScanCut(cut, |file|, rs);
  }

  // ---------------------------------------------------------------------------
  // Damage: up to four changed bytes in one record, its length field excepted
  // ---------------------------------------------------------------------------

  /** `g` is `f` with the `n` bytes at `at` changed. */
  predicate Burst(f: seq<byte>, g: seq<byte>, at: nat, n: nat) {
    && |f| == |g| && at + n <= |f| && n <= 4
    && f[..at] == g[..at] && f[at + n..] == g[at + n..] && f[at..at + n] != g[at..at + n]
  }

  /** The bytes lie in the record's identifier, in its payload, or in its checksum. */
  predicate Within(r: Record, offset: nat, at: nat, n: nat) {
    || (offset <= at && at + n <= offset + 4)
    || (offset + 8 <= at && at + n <= offset + 8 + |r.payload|)
    || (offset + 8 + |r.payload| <= at && at + n <= offset + r.Length())
  }

  lemma ReadUnfolds(file: seq<byte>, offset: nat)
    requires offset + 12 + (if offset + 8 <= |file| then ReadU32BE(file, offset + 4) else 0) <= |file|
    ensures var e := offset + 8 + ReadU32BE(file, offset + 4);
            ReadRecord(file, offset) == DecodeOperationRecord(file[offset..e], file[e..e + 4])
  {
    hide DecodeOperationRecord;
  }

  lemma OtherChecksum(covered: seq<byte>, checksum: seq<byte>, other: seq<byte>)
    requires |covered| >= 8 && DecodeOperationRecord(covered, checksum).Ok? && other != checksum
    ensures DecodeOperationRecord(covered, other).Err?
  {
    hide Crc32.Checksum;
  }

  lemma DamagedRead(f: seq<byte>, g: seq<byte>, offset: nat, at: nat, n: nat)
    requires ReadRecord(f, offset).Ok? && Burst(f, g, at, n) && Within(ReadRecord(f, offset).value, offset, at, n)
    ensures ReadU32BE(g, offset + 4) == ReadU32BE(f, offset + 4)
    ensures ReadRecord(g, offset).Err?
  {
    hide ReadRecord, ReadU32BE, DecodeOperationRecord;
    LengthOfRead(f, offset);
    var e := offset + 8 + |ReadRecord(f, offset).value.payload|;
    ReadUnfolds(f, offset);
    LengthUntouched(f, g, offset, at, n);
    ReadUnfolds(g, offset);
    assert |g| == |f| && e + 4 <= |g|;
    if at + n <= e {
      DamagedCovered(f, g, offset, e, at, n);
    } else {
      DamagedChecksum(f, g, offset, e, at, n);
    }
  }

  lemma DamagedChecksum(f: seq<byte>, g: seq<byte>, offset: nat, e: nat, at: nat, n: nat)
    requires Burst(f, g, at, n) && offset + 8 <= e <= at && at + n <= e + 4 <= |f|
    requires DecodeOperationRecord(f[offset..e], f[e..e + 4]).Ok?
    ensures DecodeOperationRecord(g[offset..e], g[e..e + 4]).Err?
  {
    hide DecodeOperationRecord;
    AgreeBelow(f, g, at, offset, e);
    SliceOfSlice(f, e, 4, at - e, at - e + n);
    SliceOfSlice(g, e, 4, at - e, at - e + n);
    OtherChecksum(f[offset..e], f[e..e + 4], g[e..e + 4]);
  }

  lemma AgreeBelow(f: seq<byte>, g: seq<byte>, at: nat, lo: nat, hi: nat)
    requires lo <= hi <= at <= |f| && at <= |g| && f[..at] == g[..at]
    ensures f[lo..hi] == g[lo..hi]
  {
    SliceOfSlice(f, 0, at, lo, hi);
    SliceOfSlice(g, 0, at, lo, hi);
  }

  lemma LengthUntouched(f: seq<byte>, g: seq<byte>, offset: nat, at: nat, n: nat)
    requires Burst(f, g, at, n) && offset + 8 <= |f|
    requires at + n <= offset + 4 || offset + 8 <= at
    ensures ReadU32BE(g, offset + 4) == ReadU32BE(f, offset + 4)
  {
    hide FromBytesBE;
    if offset + 8 <= at {
      assert forall i :: 0 <= i < at ==> f[i] == f[..at][i] == g[i];
    } else {
      var k := at + n;
      assert forall i :: k <= i < |f| ==> f[i] == f[k..][i - k] && g[i] == g[k..][i - k];
    }
  }

  lemma DamagedCovered(f: seq<byte>, g: seq<byte>, offset: nat, e: nat, at: nat, n: nat)
    requires Burst(f, g, at, n) && offset <= at && at + n <= e && offset + 8 <= e && e + 4 <= |f|
    requires DecodeOperationRecord(f[offset..e], f[e..e + 4]).Ok?
    ensures DecodeOperationRecord(g[offset..e], g[e..e + 4]).Err?
  {
    hide DecodeOperationRecord;
    var before, after := f[offset..at], f[at + n..e];
    AgreeBelow(f, g, at, offset, at);
    SliceFrom(f, g, at + n, at + n, e);
    SliceFrom(f, g, at + n, e, e + 4);
    assert f[offset..e] == before + f[at..at + n] + after;
    assert g[offset..e] == before + g[at..at + n] + after;
    DecodeRejectsBurst(before, f[at..at + n], g[at..at + n], after, f[e..e + 4]);
  }

  lemma SliceFrom(f: seq<byte>, g: seq<byte>, from: nat, lo: nat, hi: nat)
    requires from <= lo <= hi <= |f| == |g| && f[from..] == g[from..]
    ensures f[lo..hi] == g[lo..hi]
  {
    var p, q := f[from..], g[from..];
    assert forall k :: 0 <= k < |p| ==> p[k] == f[from + k] && q[k] == g[from + k];
    assert forall k :: lo <= k < hi ==> f[k] == p[k - from] && g[k] == q[k - from];
  }

  lemma DamagedStep(f: seq<byte>, g: seq<byte>, offset: nat, at: nat, n: nat)
    requires offset <= |f| && StepAt(f, offset).Next?
    requires Burst(f, g, at, n) && Within(StepAt(f, offset).record, offset, at, n)
    ensures StepAt(g, offset) == if offset + StepAt(f, offset).record.Length() == |g| then Torn else Corrupt
  {
    hide ReadRecord, ReadU32BE, Within;
    LengthOfRead(f, offset);
    DamagedRead(f, g, offset, at, n);
  }

  lemma BurstKeeps(f: seq<byte>, g: seq<byte>, at: nat, n: nat, lo: nat, hi: nat)
    requires Burst(f, g, at, n) && lo <= hi <= at
    ensures |f| == |g| && f[lo..hi] == g[lo..hi]
  {
    AgreeBelow(f, g, at, lo, hi);
  }

  /**
   Damage is never read as data: the records before the damaged one are read unchanged, and the
   reading then fails hard, or, when the damaged record is the last one, reports a torn tail.
   */
  lemma {:induction false} ScanDamaged(f: seq<byte>, g: seq<byte>, start: nat, i: nat, at: nat, n: nat)
    requires start <= |f| && i < |ScanFrom(f, start).records|
    requires var hit := ScanFrom(f, start).records[i];
             Burst(f, g, at, n) && Within(hit.record, hit.offset, at, n) && hit.offset <= at
    ensures var s := ScanFrom(f, start);
            var hit := s.records[i];
            ScanFrom(g, start) == Scan(s.records[..i], hit.offset,
                                       if hit.offset + hit.record.Length() == |f| then TornTail else Corrupted)
    decreases i
  {
    hide StepAt, Within, Burst, ReadRecord, ScanFrom;
    BurstKeeps(f, g, at, n, 0, 0);
    if !StepAt(f, start).Next? {
      ScanStops(f, start);
    } else {
      var r := StepAt(f, start).record;
      var next := start + r.Length();
      var rest := ScanFrom(f, next).records;
      ScanNext(f, start);
      if i == 0 {
        DamagedStep(f, g, start, at, n);
        ScanStops(g, start);
      } else {
        assert ScanFrom(f, start).records[i] == rest[i - 1];
        RecordsAfter(f, next);
        ScanDamaged(f, g, next, i - 1, at, n);
        BurstKeeps(f, g, at, n, start, next);
        StepStable(f, g, start);
        ScanNext(g, start);
        assert ([Located(start, r)] + rest)[..i] == [Located(start, r)] + rest[..i - 1];
      }
    }
  }

  /** Records lie at or after the offset reading starts at, and within the file. */
  lemma {:induction false} RecordsAfter(file: seq<byte>, offset: nat)
    requires offset <= |file|
    ensures forall l :: l in ScanFrom(file, offset).records ==>
              offset <= l.offset && l.record.Valid() && l.offset + l.record.Length() <= ScanFrom(file, offset).stop
    decreases |file| - offset
  {
    hide StepAt;
    if StepAt(file, offset).Next? {
      RecordsAfter(file, offset + StepAt(file, offset).record.Length());
    }
  }

  predicate Ordered(ls: seq<Located>) {
    forall i, j :: 0 <= i < j < |ls| ==> ls[i].offset + ls[i].record.Length() <= ls[j].offset
  }

  /** Records do not overlap, and a later one stands at a higher offset. */
  lemma {:induction false} RecordsOrdered(file: seq<byte>, offset: nat)
    requires offset <= |file|
    ensures Ordered(ScanFrom(file, offset).records)
    decreases |file| - offset
  {
    hide StepAt;
    if StepAt(file, offset).Next? {
      var next := offset + StepAt(file, offset).record.Length();
      RecordsOrdered(file, next);
      RecordsAfter(file, next);
      assert forall j :: 1 <= j < |ScanFrom(file, offset).records| ==>
        ScanFrom(file, offset).records[j] == ScanFrom(file, next).records[j - 1];
    }
  }

  /** Every record read from the log can be read again at its offset. */
  lemma {:induction false} RecordsReadable(file: seq<byte>, offset: nat)
    requires offset <= |file|
    ensures forall l :: l in ScanFrom(file, offset).records ==> ReadRecord(file, l.offset) == Ok(l.record)
    decreases |file| - offset
  {
    hide ReadRecord;
    if StepAt(file, offset).Next? {
      RecordsReadable(file, offset + StepAt(file, offset).record.Length());
    }
  }
}
