/**
 The storage engine over one growable file: append, read at an offset, read a range, and the
 streaming reader with its sliding window and torn-tail recovery.
 */
module Storage {
  import opened Bytes
  import opened Records
  import opened LogScan

  class FileStorage {
    var bytes: seq<byte>  // the file on disk
    var currentOffset: nat
    var tornTailRecovered: bool
    var tornTailBytes: nat

    ghost predicate Valid()
      reads this
    {
      FILE_HEADER_BYTES <= currentOffset == |bytes|
    }

    /** Opens a file whose header has been accepted. */
    constructor (contents: seq<byte>)
      requires |contents| >= FILE_HEADER_BYTES
      ensures Valid() && bytes == contents && !tornTailRecovered && tornTailBytes == 0
    {
      bytes, currentOffset := contents, |contents|;
      tornTailRecovered, tornTailBytes := false, 0;
    }

    /** Writes one record at the end of the file; an impossible record is refused before the write. */
    method AppendOperation(identifier: seq<byte>, payload: seq<byte>) returns (offset: Result<nat>)
      requires Valid()
      modifies this`bytes, this`currentOffset
      ensures Valid()
      ensures offset.Ok? <==> Record(identifier, payload).Valid()
      ensures offset.Ok? ==> offset.value == |old(bytes)| && bytes == old(bytes) + Record(identifier, payload).Encoded()
      ensures offset.Err? ==> bytes == old(bytes)
    {
      var start := currentOffset;
      var record := EncodeOperationRecord(identifier, payload);
      if record.Err? {
        return Err(record.error);
      }
      bytes := bytes[..start] + record.value;
      currentOffset := currentOffset + |record.value|;
      offset := Ok(start);
    }

    method ReadExact(length: nat, position: nat) returns (r: Result<seq<byte>>)
      ensures r.Ok? <==> length == 0 || position + length <= |bytes|
      ensures r.Ok? && position + length <= |bytes| ==> r.value == bytes[position..position + length]
      ensures r.Ok? && length == 0 ==> r.value == []
    {
      if length == 0 {
        r := Ok([]);
      } else if position + length <= |bytes| {
        r := Ok(bytes[position..position + length]);
      } else {
        r := Err("Invalid operation record: unexpected end of file.");
      }
    }

    /** Reads header, payload and checksum separately; the outcome is that of `ReadRecord`. */
    method ReadOperationAtOffset(offset: nat) returns (r: Result<Record>)
      ensures r.Ok? == ReadRecord(bytes, offset).Ok?
      ensures r.Ok? ==> r == ReadRecord(bytes, offset)
    {
      hide FromBytesBE, DecodeOperationRecord;
      var header := ReadExact(OPERATION_HEADER_BYTES, offset);
      if header.Err? {
        return Err(header.error);
      }
      var payloadLength := ReadU32BE(header.value, OPERATION_IDENTIFIER_BYTES);
      assert payloadLength == ReadU32BE(bytes, offset + 4);
      var payload := ReadExact(payloadLength, offset + OPERATION_HEADER_BYTES);
      if payload.Err? {
        return Err(payload.error);
      }
      var checksum := ReadExact(OPERATION_CRC32_BYTES, offset + OPERATION_HEADER_BYTES + payloadLength);
      if checksum.Err? {
        return Err(checksum.error);
      }
      assert header.value + payload.value == bytes[offset..offset + 8 + payloadLength];
      r := DecodeOperationRecord(header.value + payload.value, checksum.value);
    }

    method ReadRawBytes(offset: nat, length: nat) returns (data: seq<byte>)
      requires offset + length <= |bytes|
      ensures data == bytes[offset..offset + length]
    {
      data := bytes[offset..offset + length];
    }

    method WriteRawAt(offset: nat, data: seq<byte>)
      requires Valid() && offset + |data| <= |bytes|
      modifies this`bytes
      ensures Valid()
      ensures bytes == old(bytes[..offset]) + data + old(bytes[offset + |data|..])
    {
      bytes := bytes[..offset] + data + bytes[offset + |data|..];
    }

    /**
     One read that covers the records at all the given offsets: from the lowest to the end of the
     record at the highest. Every record that ends within the range reads the same from the buffer.
     */
    method ReadBulkRange(offsets: seq<nat>) returns (buffer: seq<byte>, rangeStart: nat)
      requires Valid() && |offsets| > 0
      requires forall o :: o in offsets ==> ReadRecord(bytes, o).Ok?
      ensures rangeStart in offsets && forall o :: o in offsets ==> rangeStart <= o
      ensures exists o :: o in offsets && (forall p :: p in offsets ==> p <= o)
                       && rangeStart + |buffer| == o + ReadRecord(bytes, o).value.Length()
      ensures forall o :: o in offsets && o + ReadRecord(bytes, o).value.Length() <= rangeStart + |buffer| ==>
                ReadRecord(buffer, o - rangeStart) == ReadRecord(bytes, o)
    {
      hide ReadRecord, ReadU32BE;
      var minOffset, maxOffset := offsets[0], offsets[0];
      for i := 0 to |offsets|
        invariant minOffset in offsets && maxOffset in offsets
        invariant forall k :: 0 <= k < i ==> minOffset <= offsets[k] <= maxOffset
      {
        if offsets[i] < minOffset {
          minOffset := offsets[i];
        }
        if offsets[i] > maxOffset {
          maxOffset := offsets[i];
        }
      }
      LengthOfRead(bytes, maxOffset);
      var maxHeader := ReadExact(OPERATION_HEADER_BYTES, maxOffset);
      ReadU32Window(bytes, maxOffset, maxHeader.value);
      var maxPayloadLength := ReadU32BE(maxHeader.value, OPERATION_IDENTIFIER_BYTES);
      var maxRecordEnd := maxOffset + OPERATION_HEADER_BYTES + maxPayloadLength + OPERATION_CRC32_BYTES;
      var rangeEnd := if maxRecordEnd <= currentOffset then maxRecordEnd else currentOffset;
      var range := ReadExact(rangeEnd - minOffset, minOffset);
      buffer, rangeStart := range.value, minOffset;
      forall o | o in offsets && o + ReadRecord(bytes, o).value.Length() <= rangeStart + |buffer|
        ensures ReadRecord(buffer, o - rangeStart) == ReadRecord(bytes, o)
      {
        ReadFromRange(bytes, rangeStart, buffer, o);
      }
    }

    method TruncateTo(newSize: nat)
      requires Valid() && FILE_HEADER_BYTES <= newSize <= |bytes|
      modifies this`bytes, this`currentOffset
      ensures Valid() && bytes == old(bytes[..newSize])
    {
      bytes := bytes[..newSize];
      currentOffset := newSize;
    }

    method RecoverTornTail(validOffset: nat, priorEnd: nat)
      requires Valid() && FILE_HEADER_BYTES <= validOffset <= |bytes| && validOffset <= priorEnd
      modifies this
      ensures Valid() && bytes == old(bytes[..validOffset])
      ensures tornTailRecovered && tornTailBytes == priorEnd - validOffset
    {
      TruncateTo(validOffset);
      tornTailRecovered := true;
      tornTailBytes := priorEnd - validOffset;
    }
  }

  /** The generator of `readOperations`: a window onto the file and where it stands. */
  class OperationReader {
    const storage: FileStorage
    const end: nat
    const chunkBytes: nat
    var fileOffset: nat
    var window: seq<byte>
    ghost const original: seq<byte>  // the file when the reading began

    /** The window shows the original file. */
    ghost predicate Valid()
      reads this
    {
      && end == |original|
      && FILE_HEADER_BYTES <= fileOffset && fileOffset + |window| <= end
      && window == original[fileOffset..fileOffset + |window|]
    }

    /** What has not been read yet is still as it was, whatever happened to the bytes before it. */
    ghost predicate Ahead()
      requires Valid()
      reads this, storage
    {
      && storage.Valid() && |storage.bytes| == end
      && storage.bytes[fileOffset + |window|..] == original[fileOffset + |window|..]
    }

    constructor (storage: FileStorage, chunkBytes: nat)
      requires storage.Valid()
      ensures this.storage == storage && original == storage.bytes
      ensures Valid() && Ahead() && fileOffset == FILE_HEADER_BYTES
    {
      this.storage := storage;
      this.chunkBytes := chunkBytes;
      end := storage.currentOffset;
      original := storage.bytes;
      fileOffset := FILE_HEADER_BYTES;
      window := [];
    }

    /** Reads on until the window holds `minBytes`; false when the file ends before. */
    method Fill(minBytes: nat) returns (filled: bool)
      requires Valid() && Ahead()
      modifies this`window
      ensures Valid() && Ahead()
      ensures filled <==> fileOffset + minBytes <= end
      ensures filled ==> minBytes <= |window|
      ensures !filled ==> fileOffset + |window| == end
    {
      while |window| < minBytes
        invariant Valid() && Ahead()
        decreases end - |window|
      {
        var remaining := end - (fileOffset + |window|);
        if remaining <= 0 {
          return false;
        }
        var wanted := if chunkBytes >= minBytes - |window| then chunkBytes else minBytes - |window|;
        var readLength := if wanted <= remaining then wanted else remaining;
        var position := fileOffset + |window|;
        var next := storage.ReadExact(readLength, position);
        UnreadSlice(storage.bytes, original, position, readLength);
        window := window + next.value;
        assert original[fileOffset..position] + original[position..position + readLength] == original[fileOffset..position + readLength];
        assert storage.bytes[position..][readLength..] == storage.bytes[position + readLength..];
        assert original[position..][readLength..] == original[position + readLength..];
      }
      return true;
    }

    /**
     One step of the generator. The outcome is decided by the original file alone: neither the
     chunk size nor writes to bytes already read can show. A torn tail is cut off.
     */
    method Next() returns (step: Step)
      requires Valid() && Ahead()
      modifies this, storage
      ensures Valid() && storage.Valid()
      ensures step == StepAt(original, old(fileOffset))
      ensures step.Next? ==> fileOffset == old(fileOffset) + step.record.Length()
      ensures !step.Next? ==> fileOffset == old(fileOffset)
      ensures !step.Torn? ==> Ahead() && unchanged(storage)
      ensures step.Torn? ==> storage.bytes == old(storage.bytes)[..fileOffset]
      ensures step.Torn? ==> storage.tornTailRecovered && storage.tornTailBytes == end - fileOffset
    {
      hide StepAt, ReadRecord, ReadU32BE;
      StepCases(original, fileOffset);
      var filled := Fill(OPERATION_HEADER_BYTES);
      if !filled {
        if |window| == 0 {
          return End;
        }
        storage.RecoverTornTail(fileOffset, end);
        return Torn;
      }

      var payloadLength := ReadU32BE(window, OPERATION_IDENTIFIER_BYTES);
      var recordLength := OPERATION_HEADER_BYTES + payloadLength + OPERATION_CRC32_BYTES;
      ReadU32Window(original, fileOffset, window);

      filled := Fill(recordLength);
      if !filled {
        storage.RecoverTornTail(fileOffset, end);
        return Torn;
      }

      ReadU32Window(original, fileOffset, window);
      ReadWindow(original, fileOffset, window);
      var operation := ReadRecord(window, 0);
      if operation.Err? {
        if fileOffset + recordLength >= end {
          storage.RecoverTornTail(fileOffset, end);
          return Torn;
        }
        return Corrupt;
      }

      step := LogScan.Step.Next(operation.value);
      SliceOfSlice(original, fileOffset, |window|, recordLength, |window|);
      fileOffset := fileOffset + recordLength;
      window := window[recordLength..];
    }
  }

  /** A consumer that reads the whole log and keeps the records. */
  method ReadOperations(storage: FileStorage, chunkBytes: nat) returns (records: seq<Located>, status: Status)
    requires storage.Valid()
    modifies storage
    ensures storage.Valid()
    ensures var s := ScanLog(old(storage.bytes));
            records == s.records && status == s.status
            && storage.bytes == (if s.status.TornTail? then old(storage.bytes)[..s.stop] else old(storage.bytes))
            && (s.status.TornTail? ==> storage.tornTailRecovered && storage.tornTailBytes == |old(storage.bytes)| - s.stop)
            && (!s.status.TornTail? ==> unchanged(storage))
    ensures status.TornTail? ==> ScanLog(storage.bytes) == ScanLog(old(storage.bytes)).(status := Clean)
  {
    hide StepAt;
    var reader := new OperationReader(storage, chunkBytes);
    records := [];
    while true
      invariant reader.storage == storage && fresh(reader) && reader.original == old(storage.bytes)
      invariant reader.Valid() && reader.Ahead() && unchanged(storage)
      invariant var rest := ScanFrom(reader.original, reader.fileOffset);
                ScanLog(reader.original) == rest.(records := records + rest.records)
      decreases reader.end - reader.fileOffset
    {
      var offset := reader.fileOffset;
      var step := reader.Next();
      match step
      case Next(record) =>
        var rest := ScanFrom(reader.original, reader.fileOffset);
        assert records + ([Located(offset, record)] + rest.records) == (records + [Located(offset, record)]) + rest.records;
        records := records + [Located(offset, record)];
      case End =>
        return records, Clean;
      case Torn =>
        ScanTruncated(old(storage.bytes), FILE_HEADER_BYTES);
        return records, TornTail;
      case Corrupt =>
        return records, Corrupted;
    }
  }

  /** The cases of `StepAt`, in the order the reader meets them. */
  lemma StepCases(file: seq<byte>, offset: nat)
    requires offset <= |file|
    ensures offset == |file| ==> StepAt(file, offset) == End
    ensures offset < |file| < offset + 8 ==> StepAt(file, offset) == Torn
    ensures offset + 8 <= |file| ==>
              var end := offset + 12 + ReadU32BE(file, offset + 4);
              && (|file| < end ==> StepAt(file, offset) == Torn)
              && (end <= |file| ==> match ReadRecord(file, offset)
                    case Ok(r) => StepAt(file, offset) == Next(r) && offset + r.Length() == end
                    case Err(_) => StepAt(file, offset) == if end == |file| then Torn else Corrupt)
  {
    hide ReadRecord, ReadU32BE;
    if ReadRecord(file, offset).Ok? {
      LengthOfRead(file, offset);
    }
  }

  lemma ReadFromRange(file: seq<byte>, start: nat, buffer: seq<byte>, offset: nat)
    requires start + |buffer| <= |file| && buffer == file[start..start + |buffer|]
    requires start <= offset && ReadRecord(file, offset).Ok?
    requires offset + ReadRecord(file, offset).value.Length() <= start + |buffer|
    ensures ReadRecord(buffer, offset - start) == ReadRecord(file, offset)
  {
    hide ReadRecord, ReadU32BE;
    var n := ReadRecord(file, offset).value.Length();
    var window := file[offset..offset + n];
    LengthOfRead(file, offset);
    ReadU32Window(file, offset, window);
    ReadWindow(file, offset, window);
    SliceOfSlice(file, start, |buffer|, offset - start, offset - start + n);
    ReadU32Window(buffer, offset - start, window);
    ReadWindow(buffer, offset - start, window);
  }

  lemma UnreadSlice(file: seq<byte>, original: seq<byte>, position: nat, n: nat)
    requires position + n <= |file| == |original| && file[position..] == original[position..]
    ensures file[position..position + n] == original[position..position + n]
  {
    SliceFrom(file, original, position, position, position + n);
  }
}
