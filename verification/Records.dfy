/**
 The operation record: a 4-byte identifier, a big-endian payload length, the payload
 and a CRC-32 over all three.
 */
module Records {
  import opened Bytes
  import opened Crc32

  const FILE_HEADER_BYTES: nat := 12
  const OPERATION_IDENTIFIER_BYTES: nat := 4
  const OPERATION_HEADER_BYTES: nat := 8
  const OPERATION_CRC32_BYTES: nat := 4

  datatype Record = Record(identifier: seq<byte>, payload: seq<byte>) {
    /** What `Encoded` can represent; the encoder throws on everything else. */
    predicate Valid() {
      |identifier| == OPERATION_IDENTIFIER_BYTES && |payload| < TWO_TO_32
    }

    function Length(): nat {
      OPERATION_HEADER_BYTES + |payload| + OPERATION_CRC32_BYTES
    }

    /** The bytes the checksum covers. */
    function Covered(): (bs: seq<byte>)
      requires Valid()
      ensures |bs| == OPERATION_HEADER_BYTES + |payload|
    {
      identifier + U32BE(|payload|) + payload
    }

    function Encoded(): (bs: seq<byte>)
      requires Valid()
      ensures |bs| == Length()
    {
      Covered() + Checksum(Covered())
    }
  }

  type ValidRecord = r: Record | r.Valid() witness Record([0, 0, 0, 0], [])

  /** Fills the record buffer in place, as the source does. */
  method EncodeOperationRecord(identifier: seq<byte>, payload: seq<byte>) returns (record: Result<seq<byte>>)
    ensures record.Ok? <==> Record(identifier, payload).Valid()
    ensures record.Ok? ==> record.value == Record(identifier, payload).Encoded()
  {
    hide Checksum, WordBytes, BitSerialCrc, Crc, U32BE;
    if |identifier| != OPERATION_IDENTIFIER_BYTES {
      return Err("Operation identifier must be exactly 4 bytes.");
    }
    if |payload| >= TWO_TO_32 {
      return Err("The value of \"value\" is out of range.");
    }
    var covered := new byte[OPERATION_HEADER_BYTES + |payload|](_ => 0);
    Copy(covered, identifier, 0);
    Copy(covered, U32BE(|payload|), OPERATION_IDENTIFIER_BYTES);
    Copy(covered, payload, OPERATION_HEADER_BYTES);
    assert covered[..] == Record(identifier, payload).Covered();

    var buffer := new byte[covered.Length + OPERATION_CRC32_BYTES](_ => 0);
    Copy(buffer, covered[..], 0);
    var crc := ComputeCrc32(covered[..]);
    ChecksumIsBitSerial(covered[..]);
    Copy(buffer, WordBytes(crc), covered.Length);
    assert buffer[..] == covered[..] + WordBytes(crc);
    record := Ok(buffer[..]);
  }

  lemma ChecksumIsBitSerial(bytes: seq<byte>)
    ensures Checksum(bytes) == WordBytes(BitSerialCrc(bytes))
  {
    hide WordBytes, Crc, BitSerialCrc;
    TableLoopIsBitSerial(bytes);
  }

  method Copy(target: array<byte>, source: seq<byte>, offset: nat)
    requires offset + |source| <= target.Length
    modifies target
    ensures target[..] == old(target[..offset]) + source + old(target[offset + |source|..])
  {
    for i := 0 to |source|
      invariant target[..offset] == old(target[..offset])
      invariant target[offset..offset + i] == source[..i]
      invariant target[offset + |source|..] == old(target[offset + |source|..])
    {
      target[offset + i] := source[i];
    }
    assert target[..] == target[..offset] + target[offset..offset + |source|] + target[offset + |source|..];
  }

  function DecodeOperationRecord(covered: seq<byte>, checksum: seq<byte>): Result<Record>
    requires |covered| >= OPERATION_HEADER_BYTES
  {
    if Checksum(covered) != checksum then
      Err("Invalid operation record: CRC32 checksum mismatch.")
    else
      var payloadEnd := OPERATION_HEADER_BYTES + ReadU32BE(covered, OPERATION_IDENTIFIER_BYTES);
      var clamped := if payloadEnd <= |covered| then payloadEnd else |covered|;
      Ok(Record(covered[..OPERATION_IDENTIFIER_BYTES], covered[OPERATION_HEADER_BYTES..clamped]))
  }

  /** The record at `offset` of a buffer or file, if it is wholly there and its checksum matches. */
  function ReadRecord(buffer: seq<byte>, offset: nat): (r: Result<Record>)
    ensures r.Ok? ==> offset + r.value.Length() <= |buffer| && r.value.Valid()
  {
    if offset + OPERATION_HEADER_BYTES > |buffer| then
      Err("Invalid operation record: unexpected end of buffer.")
    else
      var payloadLength := ReadU32BE(buffer, offset + OPERATION_IDENTIFIER_BYTES);
      var coveredEnd := offset + OPERATION_HEADER_BYTES + payloadLength;
      if coveredEnd + OPERATION_CRC32_BYTES > |buffer| then
        Err("Invalid operation record: unexpected end of buffer.")
      else
        DecodeOperationRecord(buffer[offset..coveredEnd], buffer[coveredEnd..coveredEnd + OPERATION_CRC32_BYTES])
  }

  lemma ReadEncodedU32(buffer: seq<byte>, offset: nat, n: nat)
    requires n < TWO_TO_32 && offset + 4 <= |buffer| && buffer[offset..offset + 4] == U32BE(n)
    ensures ReadU32BE(buffer, offset) == n
  {
    assert buffer == buffer[..offset] + U32BE(n) + buffer[offset + 4..];
    ReadWriteU32BE(n, buffer[..offset], buffer[offset + 4..]);
  }

  lemma DecodeEncoded(r: ValidRecord)
    ensures DecodeOperationRecord(r.Covered(), Checksum(r.Covered())) == Ok(r)
  {
    hide Checksum, U32BE, ReadU32BE;
    var covered := r.Covered();
    assert covered[..4] == r.identifier && covered[4..8] == U32BE(|r.payload|) && covered[8..] == r.payload;
    ReadEncodedU32(covered, 4, |r.payload|);
    assert covered[8..|covered|] == covered[8..];
  }

  lemma SliceOfSlice(bs: seq<byte>, i: nat, n: nat, lo: nat, hi: nat)
    requires i + n <= |bs| && lo <= hi <= n
    ensures bs[i..i + n][lo..hi] == bs[i + lo..i + hi]
  {
    var t := bs[i..i + n];
    assert forall k :: 0 <= k < hi - lo ==> t[lo..hi][k] == t[lo + k] == bs[i + lo + k];
  }

  /** A record is read back wherever its encoding stands, whatever surrounds it. */
  lemma ReadBack(buffer: seq<byte>, offset: nat, r: ValidRecord)
    requires offset + r.Length() <= |buffer| && buffer[offset..offset + r.Length()] == r.Encoded()
    ensures ReadRecord(buffer, offset) == Ok(r)
  {
    hide Checksum, U32BE, ReadU32BE;
    var covered, n := r.Covered(), r.Length();
    assert r.Encoded()[..n - 4] == covered && r.Encoded()[n - 4..n] == Checksum(covered);
    SliceOfSlice(buffer, offset, n, 0, n - 4);
    SliceOfSlice(buffer, offset, n, n - 4, n);
    SliceOfSlice(buffer, offset, n, 4, 8);
    assert r.Encoded()[4..8] == U32BE(|r.payload|);
    ReadEncodedU32(buffer, offset + 4, |r.payload|);
    DecodeEncoded(r);
  }

  /** A change confined to four consecutive covered bytes, or to the stored checksum, is rejected. */
  lemma DecodeRejectsBurst(before: seq<byte>, a: seq<byte>, b: seq<byte>, after: seq<byte>, checksum: seq<byte>)
    requires |a| == |b| <= 4 && a != b && |before| + |a| + |after| >= OPERATION_HEADER_BYTES
    requires DecodeOperationRecord(before + a + after, checksum).Ok?
    ensures DecodeOperationRecord(before + b + after, checksum).Err?
    ensures forall other: seq<byte> :: other != checksum ==> DecodeOperationRecord(before + a + after, other).Err?
  {
    hide Checksum;
    BurstChangesChecksum(before, a, b, after);
  }

  /** Reading a record from a window onto a file is reading it from the file. */
  lemma ReadWindow(file: seq<byte>, offset: nat, window: seq<byte>)
    requires offset + |window| <= |file| && window == file[offset..offset + |window|]
    requires |window| >= 8 && 12 + ReadU32BE(window, 4) <= |window|
    ensures ReadRecord(window, 0) == ReadRecord(file, offset)
  {
    hide Checksum, FromBytesBE;
    ReadU32Window(file, offset, window);
    var e := 8 + ReadU32BE(window, 4);
    SliceOfSlice(file, offset, |window|, 0, e);
    SliceOfSlice(file, offset, |window|, e, e + 4);
  }

  lemma ReadU32Window(file: seq<byte>, offset: nat, window: seq<byte>)
    requires offset + |window| <= |file| && window == file[offset..offset + |window|] && |window| >= 8
    ensures ReadU32BE(window, 4) == ReadU32BE(file, offset + 4)
  {
    hide FromBytesBE;
    assert window[4] == file[offset + 4] && window[5] == file[offset + 5];
    assert window[6] == file[offset + 6] && window[7] == file[offset + 7];
  }
}
