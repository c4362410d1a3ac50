/** The counterexamples on files of AMF3 documents: what they ask of an encoder and of the calls can be met. */
module Examples {
  import opened Bytes
  import opened Records
  import opened LogScan
  import opened Documents
  import opened U29
  import opened Payloads
  import opened Operations
  import opened DatabaseState
  import opened Replay
  import opened Calls
  import opened Runs
  import opened LogCompaction
  import opened CompactedRuns
  import opened CompactionLoop
  import opened Database
  import opened Scenarios
  import opened Encoders
  import opened Interruption
  import OpenTail
  import CacheTransparency
  import Amf3
  import Buffers


  const LETTERS: Str := seq(1000, _ => 0x61)

  const LONG_THEN_SHORT: Script :=
    Script(Zeros(12), [1, 2, 3, 4], [0x63], seq(24, _ => 0x30), seq(24, _ => 0x31), [Field([0x74], Text(LETTERS))], [], [])

  lemma AmfId(id: Str)
    requires |id| == 24
    ensures Amf3.Members([Field(ID_FIELD, Text(id))]) == [0x07, 0x5f, 0x69, 0x64, 0x06, 0x31] + id
    ensures |Amf3.ObjectBytes([Field(ID_FIELD, Text(id))])| == 34
  {
    var f := Field(ID_FIELD, Text(id));
    assert [f][1..] == [] && Amf3.Members([]) == [];
    assert Amf3.RawString(ID_FIELD) == [0x07] + ID_FIELD;
    assert Amf3.ValueBytes(f.value) == [0x06, 0x31] + id;
  }

  /** The letters stand in the encoding behind eight bytes. */
  lemma AmfLetters(id: Str)
    requires |id| == 24
    ensures var bytes := Amf3.ObjectBytes([Field([0x74], Text(LETTERS)), Field(ID_FIELD, Text(id))]);
            |bytes| == 1039 && bytes[8..1008] == LETTERS
  {
    hide Buffers.InlineU29;
    AmfId(id);
    var f, g := Field([0x74], Text(LETTERS)), Field(ID_FIELD, Text(id));
    assert [f, g][1..] == [g];
    LetterHeaders();
    assert Amf3.RawString(f.key) == [0x03, 0x74];
    assert Amf3.ValueBytes(f.value) == [0x06, 0x8f, 0x51] + LETTERS;
    assert Amf3.Members([f, g]) == ([0x03, 0x74] + ([0x06, 0x8f, 0x51] + LETTERS)) + Amf3.Members([g]);
  }

  lemma LetterHeaders()
    ensures Buffers.InlineU29(3) == [0x03] && Buffers.InlineU29(2001) == [0x8f, 0x51]
  {
  }

  lemma AmfIdentified(id: Str)
    ensures Identify([Field([0x74], Text(LETTERS))], id) == [Field([0x74], Text(LETTERS)), Field(ID_FIELD, Text(id))]
    ensures Identify([], id) == [Field(ID_FIELD, Text(id))]
    ensures Get([Field([0x74], Text(LETTERS))], ID_FIELD).None?
  {
    var first := [Field([0x74], Text(LETTERS))];
    assert first[0].key != ID_FIELD;
    PutNew(first, ID_FIELD, Text(id));
    PutNew([], ID_FIELD, Text(id));
    assert first[1..] == [];
  }

  /** A document with an id, and perhaps letters before it, is stored. */
  lemma AmfRecorded(document: Doc, cid: CollectionId, id: Str)
    requires |cid| == 4 && IsObjectIdHex(id)
    requires document == [Field(ID_FIELD, Text(id))] || document == [Field([0x74], Text(LETTERS)), Field(ID_FIELD, Text(id))]
    ensures Recorded(AMF3, PutDocument(cid, id, document))
  {
    hide Amf3.ObjectBytes, Amf3.DecodeAmf3, Framed, Unhex;
    AmfId(id);
    AmfLetters(id);
    assert Encodes(AMF3, document);
    Amf3Stores(document);
  }

  lemma LongThenShortPlays()
    ensures LONG_THEN_SHORT.Plays(AMF3)
  {
    hide Recorded, Identify;
    var p := LONG_THEN_SHORT;
    AmfIdentified(p.id);
    AmfIdentified(p.other);
    AmfRecorded(Identify(p.first, p.id), p.cid, p.id);
    AmfRecorded(Identify(p.second, p.id), p.cid, p.id);
    AmfRecorded(Identify(p.third, p.other), p.cid, p.other);
    NameRecorded(p.cid, p.name);
    assert p.id[0] != p.other[0];
  }

  lemma NameRecorded(cid: CollectionId, name: Str)
    requires |cid| == 4 && |name| == 1
    ensures Recorded(AMF3, NewCollection(cid, name))
  {
  }

  /** The payload of a put record of a document between 128 and 16383 bytes. */
  lemma PutPayloadAt(cid: CollectionId, id: Str, bytes: seq<byte>, i: nat)
    requires |cid| == 4 && IsObjectIdHex(id) && 0x80 <= |bytes| < 0x4000 && i < |bytes|
    ensures |Framed(cid + Unhex(id), bytes)| >= 18 + |bytes| && Framed(cid + Unhex(id), bytes)[18 + i] == bytes[i]
  {
    hide Unhex;
    var fixed := cid + Unhex(id);
    var unaligned := fixed + U29.U29(|bytes|) + bytes;
    assert |fixed + U29.U29(|bytes|)| == 18 && unaligned[18 + i] == bytes[i];
    assert Framed(fixed, bytes)[..|unaligned|] == unaligned;
  }

  lemma PutPayloadLength(cid: CollectionId, id: Str, bytes: seq<byte>)
    requires |cid| == 4 && IsObjectIdHex(id) && |bytes| == 34
    ensures |Framed(cid + Unhex(id), bytes)| == 52
  {
    hide Unhex;
  }

  lemma AmfPayload(document: Doc, cid: CollectionId, id: Str)
    requires Recorded(AMF3, PutDocument(cid, id, document))
    ensures |cid| == 4 && IsObjectIdHex(id) && |Amf3.ObjectBytes(document)| <= U29_MAX_VALUE
    ensures RecordOf(AMF3, PutDocument(cid, id, document)).payload == Framed(cid + Unhex(id), Amf3.ObjectBytes(document))
  {
    hide Framed, Unhex, Amf3.ObjectBytes, IsObjectIdHex;
  }

  lemma LongThenShortLengths()
    ensures LONG_THEN_SHORT.Plays(AMF3)
    ensures var p := LONG_THEN_SHORT;
            && p.Record(AMF3, 2).Length() == 64 && 64 <= |p.Record(AMF3, 1).payload|
            && ReadU32BE(p.Record(AMF3, 1).payload, 60) == 0x61616161
            && |p.Record(AMF3, 0).payload| <= 12 && |p.Record(AMF3, 1).payload| <= 1062 && |p.Record(AMF3, 3).payload| <= 57
  {
    hide Framed, Unhex, Amf3.ObjectBytes, IsObjectIdHex, Identify, Recorded, RecordOf, Script.Plays;
    var p := LONG_THEN_SHORT;
    LongThenShortPlays();
    OpRecorded(AMF3, p, 1);
    OpRecorded(AMF3, p, 2);
    OpRecorded(AMF3, p, 3);
    AmfPayload(Identify(p.first, p.id), p.cid, p.id);
    AmfPayload(Identify(p.second, p.id), p.cid, p.id);
    AmfPayload(Identify(p.third, p.other), p.cid, p.other);
    AmfIdentified(p.id);
    AmfIdentified(p.other);
    AmfId(p.id);
    AmfId(p.other);
    AmfLetters(p.id);
    var bytes := Amf3.ObjectBytes(Identify(p.first, p.id));
    PutPayloadLength(p.cid, p.id, Amf3.ObjectBytes(Identify(p.second, p.id)));
    assert forall i :: 42 <= i < 46 ==> bytes[i] == bytes[8..1008][i - 8] == 0x61;
    PutPayloadAt(p.cid, p.id, bytes, 42);
    PutPayloadAt(p.cid, p.id, bytes, 43);
    PutPayloadAt(p.cid, p.id, bytes, 44);
    PutPayloadAt(p.cid, p.id, bytes, 45);
    NamePayload(p.cid, p.name);
  }

  lemma NamePayload(cid: CollectionId, name: Str)
    requires |cid| == 4 && |name| == 1
    ensures Recorded(AMF3, NewCollection(cid, name)) && |RecordOf(AMF3, NewCollection(cid, name)).payload| <= 12
  {
  }

  /** A real file: stopped before its last record, it opens without a document that was never touched. */
  lemma LongThenShortLosesDocument()
    ensures LONG_THEN_SHORT.Plays(AMF3)
    ensures var p, w := LONG_THEN_SHORT, LONG_THEN_SHORT.At(AMF3, 4);
            && Synced(AMF3, w) && Compactable(AMF3, w) && HasDocument(w.db, p.cid, p.other)
            && |ScanLog(w.file).records| == 4 && WriteHead(AMF3, w.db, ScanLog(w.file).records, 3) <= |w.file|
            && Interrupted(AMF3, w, 3, HalfCompacted(AMF3, w, 3))
            && |HalfCompacted(AMF3, w, 3)| >= FILE_HEADER_BYTES && OpenFile(AMF3, HalfCompacted(AMF3, w, 3)).Ok?
            && !HasDocument(OpenFile(AMF3, HalfCompacted(AMF3, w, 3)).value.db, p.cid, p.other)
  {
    hide Script.Plays, Script.Ops, Script.Record, Interrupted, HalfCompacted, Script.At, WriteHead, ScanFrom, Synced, Compactable, HasDocument, ReadU32BE;
    LongThenShortLengths();
    var p := LONG_THEN_SHORT;
    assert p.Offset(AMF3, 1) == 12 + p.Record(AMF3, 0).Length();
    assert p.Offset(AMF3, 2) == p.Offset(AMF3, 1) + p.Record(AMF3, 1).Length();
    assert p.Offset(AMF3, 3) == p.Offset(AMF3, 2) + p.Record(AMF3, 2).Length();
    assert p.Offset(AMF3, 4) == p.Offset(AMF3, 3) + p.Record(AMF3, 3).Length();
    InterruptionLosesDocument(AMF3, p);
  }

  // ---------------------------------------------------------------------------
  // The other counterexamples
  // ---------------------------------------------------------------------------

  /** A find is answered with the thousand letters after the document was replaced. */
  lemma LettersServed(sizeOf: CacheTransparency.Sizes, maxBytes: nat)
    requires sizeOf(Identify(LONG_THEN_SHORT.first, LONG_THEN_SHORT.id)) <= maxBytes
    ensures LONG_THEN_SHORT.Plays(AMF3)
    ensures var p := LONG_THEN_SHORT;
            var s := CacheTransparency.CachedWorld(p.At(AMF3, 4), Some([]), maxBytes);
            && Synced(AMF3, s.w) && CacheTransparency.TrueCache(AMF3, p.cid, s)
            && CacheTransparency.Results(AMF3, sizeOf, p.cid, s, CacheTransparency.StaleReads(AMF3, p))
               != CacheTransparency.PlainResults(AMF3, s.w, CacheTransparency.StaleReads(AMF3, p))
  {
    hide Script.Plays, Script.At, Synced, CacheTransparency.TrueCache, CacheTransparency.Results, CacheTransparency.PlainResults, CacheTransparency.StaleReads, Identify;
    var p := LONG_THEN_SHORT;
    LongThenShortPlays();
    AmfIdentified(p.id);
    CacheTransparency.SupersededVersionServed(AMF3, sizeOf, p, maxBytes);
  }

  function LongText(text: Str): OpenTail.Mishap {
    OpenTail.Mishap(Zeros(12), [1, 2, 3, 4], [0x63], seq(24, _ => 0x30), [Field([0x74], Text(text))], seq(24, _ => 0x31), [])
  }

  /** A document that does not fit the length prefix of a put record stops a batch halfway. */
  lemma LongTextHappens(text: Str)
    requires |text| > U29_MAX_VALUE
    ensures LongText(text).Happens(AMF3)
  {
    hide Identify;
    var m := LongText(text);
    AmfIdentified(m.goodId);
    AmfId(m.goodId);
    var bad := [Field([0x74], Text(text))];
    assert bad[0].key != ID_FIELD && bad[1..] == [];
    IdentifiedLong(text, m.badId);
    LongBytes(text, m.badId);
  }

  lemma IdentifiedLong(text: Str, id: Str)
    ensures Identify([Field([0x74], Text(text))], id) == [Field([0x74], Text(text)), Field(ID_FIELD, Text(id))]
  {
    var bad := [Field([0x74], Text(text))];
    assert bad[0].key != ID_FIELD;
    PutNew(bad, ID_FIELD, Text(id));
  }

  lemma LongBytes(text: Str, id: Str)
    ensures |Amf3.ObjectBytes([Field([0x74], Text(text)), Field(ID_FIELD, Text(id))])| > |text|
  {
    var f, g := Field([0x74], Text(text)), Field(ID_FIELD, Text(id));
    assert [f, g][1..] == [g];
    assert |Amf3.ValueBytes(f.value)| > |text|;
  }
}
