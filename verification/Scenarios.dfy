/**
 Short runs whose files and states are known record by record: what the counterexamples about
 compaction, the cache and unfinished transactions are shown on.
 */
module Scenarios {
  import opened Bytes
  import opened Records
  import opened LogScan
  import opened Documents
  import opened U29
  import opened Payloads
  import opened Operations
  import opened DatabaseState
  import opened Replay
  import opened Calls
  import opened LiveReplay
  import opened Compaction
  import opened Runs
  import opened LogCompaction
  import opened CompactedRuns

  /** The record of an operation that can be encoded. */
  function RecordOf(enc: Encoder, op: Operation): ValidRecord
    requires Encode(enc, op).Ok?
  {
    EncodeValid(enc, op);
    Encode(enc, op).value
  }

  /** The operation can be encoded, and read back. */
  predicate Recorded(enc: Encoder, op: Operation) {
    Encode(enc, op).Ok? && (op.PutDocument? ==> Stores(enc, op.document))
  }

  function Appended(enc: Encoder, w: World, op: Operation, db: State): World
    requires Encode(enc, op).Ok?
  {
    World(w.file + RecordOf(enc, op).Encoded(), db)
  }

  lemma SingleAppends(enc: Encoder, w: World, op: Operation, next: State)
    requires Encode(enc, op).Ok?
    ensures Single(enc, w.db, op, next) == Effect([RecordOf(enc, op)], next, false)
    ensures EncodeAll([RecordOf(enc, op)]) == RecordOf(enc, op).Encoded()
  {
    hide Encode, Record.Encoded;
    EncodeValid(enc, op);
    assert [op][1..] == [] && RecordsOf(enc, []) == [];
    EncodeOne(RecordOf(enc, op), 0);
  }

  /** The log after one more record. */
  lemma LogAppended(enc: Encoder, w: World, op: Operation, db: State)
    requires |w.file| >= FILE_HEADER_BYTES && ScanLog(w.file).status.Clean? && Encode(enc, op).Ok?
    ensures var next := Appended(enc, w, op, db);
            ScanLog(next.file) == Scan(ScanLog(w.file).records + [Located(|w.file|, RecordOf(enc, op))], |next.file|, Clean)
  {
    hide Encode, Record.Encoded, ScanFrom, EncodeAll, Locate;
    EncodeOne(RecordOf(enc, op), |w.file|);
    ScanAppendAll(w.file, [RecordOf(enc, op)]);
  }

  /** A document without an id gets one at its end, and keeps it. */
  function Identify(document: Doc, id: Str): Doc {
    Stored(document, id).document
  }

  /** A collection without indexes. */
  predicate Plain(st: State, cid: CollectionId) {
    cid in st.collections && st.collections[cid].indexes == map[]
  }

  function WithDocument(st: State, cid: CollectionId, id: Str, e: Entry): State
    requires cid in st.collections
  {
    WithCollection(st, cid, st.collections[cid].(documents := st.collections[cid].documents[id := e]))
  }

  lemma PlainWrite(enc: Encoder, w: World, cid: CollectionId, wr: Write, exclude: Option<Str>)
    requires Plain(w.db, cid) && Encode(enc, PutDocument(cid, wr.id, wr.document)).Ok?
    ensures WriteOne(enc, w.db, cid, wr, exclude, |w.file|)
         == Effect([RecordOf(enc, PutDocument(cid, wr.id, wr.document))], WithDocument(w.db, cid, wr.id, Entry(|w.file|, wr.document)), false)
  {
    hide Encode, Single, RecordsOf, KeyOf;
    var c := w.db.collections[cid];
    assert PutInto(c, wr.id, Entry(|w.file|, wr.document)).indexes == map[];
    SingleAppends(enc, w, PutDocument(cid, wr.id, wr.document), WithDocument(w.db, cid, wr.id, Entry(|w.file|, wr.document)));
  }

  lemma NewDocumentId(c: Collection, document: Doc, id: Str)
    requires Get(document, ID_FIELD).None?
    ensures DocumentId(c, Insert(document, id)) == Ok(id)
  {
  }

  lemma InsertPlays(enc: Encoder, w: World, cid: CollectionId, document: Doc, id: Str)
    requires Plain(w.db, cid) && Get(document, ID_FIELD).None? && Encode(enc, PutDocument(cid, id, Identify(document, id))).Ok?
    ensures After(enc, w, InsertOne(cid, Insert(document, id)))
         == Appended(enc, w, PutDocument(cid, id, Identify(document, id)), WithDocument(w.db, cid, id, Entry(|w.file|, Identify(document, id))))
  {
    hide Encode, WriteOne, EncodeAll, Record.Encoded, Put, Get;
    NewDocumentId(w.db.collections[cid], document, id);
    var op := PutDocument(cid, id, Identify(document, id));
    PlainWrite(enc, w, cid, Stored(document, id), None);
    SingleAppends(enc, w, op, w.db);
  }

  lemma ReplacePlays(enc: Encoder, w: World, cid: CollectionId, document: Doc, id: Str)
    requires Plain(w.db, cid) && id in w.db.collections[cid].documents && Encode(enc, PutDocument(cid, id, Identify(document, id))).Ok?
    ensures After(enc, w, ReplaceOne(cid, id, document))
         == Appended(enc, w, PutDocument(cid, id, Identify(document, id)), WithDocument(w.db, cid, id, Entry(|w.file|, Identify(document, id))))
  {
    hide Encode, WriteOne, EncodeAll, Record.Encoded, Put, Get;
    var op := PutDocument(cid, id, Identify(document, id));
    PlainWrite(enc, w, cid, Stored(document, id), Some(id));
    SingleAppends(enc, w, op, w.db);
  }

  function Opening(name: Str, cid: CollectionId): State {
    State(map[cid := Collection(name, map[], map[])], map[name := cid])
  }

  lemma OpenPlays(enc: Encoder, header: seq<byte>, name: Str, cid: CollectionId)
    requires Encode(enc, NewCollection(cid, name)).Ok?
    ensures After(enc, World(header, EMPTY), OpenCollection(name, cid))
         == Appended(enc, World(header, EMPTY), NewCollection(cid, name), Opening(name, cid))
  {
    hide Encode, EncodeAll, Record.Encoded, Single;
    SingleAppends(enc, World(header, EMPTY), NewCollection(cid, name), Opening(name, cid));
  }

  // ---------------------------------------------------------------------------
  // Open a collection, insert a document, replace it, insert another
  // ---------------------------------------------------------------------------

  datatype Script = Script(header: seq<byte>, cid: CollectionId, name: Str, id: Str, other: Str, first: Doc, second: Doc, third: Doc) {

    /** The four operations written, in order. */
    function Ops(): (ops: seq<Operation>)
      ensures |ops| == 4
    {
      [NewCollection(cid, name), PutDocument(cid, id, Identify(first, id)),
       PutDocument(cid, id, Identify(second, id)), PutDocument(cid, other, Identify(third, other))]
    }

    function Calls(): (calls: seq<Call>)
      ensures |calls| == 4
    {
      [OpenCollection(name, cid), InsertOne(cid, Insert(first, id)), ReplaceOne(cid, id, second), InsertOne(cid, Insert(third, other))]
    }

    /** The documents bring no ids, and everything written can be encoded and read back. */
    predicate Plays(enc: Encoder) {
      && |header| == FILE_HEADER_BYTES && |cid| == 4 && IsObjectIdHex(id) && IsObjectIdHex(other) && id != other
      && Get(first, ID_FIELD).None? && Get(third, ID_FIELD).None?
      && forall i :: 0 <= i < 4 ==> Recorded(enc, Ops()[i])
    }

    function Start(): World {
      World(header, EMPTY)
    }

    function Record(enc: Encoder, i: nat): ValidRecord
      requires Plays(enc) && i < 4
    {
      RecordOf(enc, Ops()[i])
    }

    /** Where each of the four records begins, and where the last one ends. */
    function Offset(enc: Encoder, i: nat): nat
      requires Plays(enc) && i <= 4
    {
      if i == 0 then FILE_HEADER_BYTES else Offset(enc, i - 1) + Record(enc, i - 1).Length()
    }

    function Log(enc: Encoder, k: nat): (ls: seq<Located>)
      requires Plays(enc) && k <= 4
      ensures |ls| == k && forall i :: 0 <= i < k ==> ls[i] == Located(Offset(enc, i), Record(enc, i))
    {
      seq(k, i requires 0 <= i < k => Located(Offset(enc, i), Record(enc, i)))
    }

    function Stamps(enc: Encoder): (ss: seq<Stamped>)
      requires Plays(enc)
      ensures |ss| == 4 && forall i :: 0 <= i < 4 ==> ss[i] == Stamped(Offset(enc, i), Ops()[i])
    {
      seq(4, i requires 0 <= i < 4 => Stamped(Offset(enc, i), Ops()[i]))
    }

    function Documents(enc: Encoder, k: nat): map<Str, Entry>
      requires Plays(enc) && k <= 4
    {
      if k <= 1 then map[]
      else if k == 2 then map[id := Entry(Offset(enc, 1), Identify(first, id))]
      else if k == 3 then map[id := Entry(Offset(enc, 2), Identify(second, id))]
      else map[id := Entry(Offset(enc, 2), Identify(second, id)), other := Entry(Offset(enc, 3), Identify(third, other))]
    }

    function Memory(enc: Encoder, k: nat): State
      requires Plays(enc) && k <= 4
    {
      if k == 0 then EMPTY else State(map[cid := Collection(name, Documents(enc, k), map[])], map[name := cid])
    }

    function At(enc: Encoder, k: nat): World
      requires k <= 4
    {
      Run(enc, Start(), Calls()[..k])
    }
  }

  /** The world after the first `k` calls: in step, with exactly these records and this memory. */
  predicate Stage(enc: Encoder, s: Script, k: nat)
    requires s.Plays(enc) && k <= 4
  {
    var w := s.At(enc, k);
    && Synced(enc, w) && w.db == s.Memory(enc, k) && |w.file| == s.Offset(enc, k)
    && ScanLog(w.file) == Scan(s.Log(enc, k), |w.file|, Clean)
  }

  lemma NextWorld(enc: Encoder, s: Script, k: nat)
    requires s.Plays(enc) && k < 4
    ensures s.At(enc, k + 1) == After(enc, s.At(enc, k), s.Calls()[k])
  {
    hide After;
    assert s.Calls()[..k + 1][..k] == s.Calls()[..k];
  }

  /** What the next call writes, and the memory it leaves. */
  lemma NextPlays(enc: Encoder, s: Script, k: nat)
    requires s.Plays(enc) && k < 4 && Stage(enc, s, k)
    ensures s.At(enc, k + 1) == Appended(enc, s.At(enc, k), s.Ops()[k], s.Memory(enc, k + 1))
  {
    hide After, Encode, Synced, ScanFrom, IsObjectIdHex, Stored, Run, Get, WithDocument, Script.Memory, Stores;
    NextWorld(enc, s, k);
    var w := s.At(enc, k);
    assert Recorded(enc, s.Ops()[k]);
    if k == 0 {
      FirstWorld(enc, s);
      MemoryGrows(enc, s, 1);
      OpenPlays(enc, s.header, s.name, s.cid);
    } else {
      MemoryGrows(enc, s, k);
      match k
      case 1 => InsertPlays(enc, w, s.cid, s.first, s.id);
      case 2 => ReplacePlays(enc, w, s.cid, s.second, s.id);
      case 3 => InsertPlays(enc, w, s.cid, s.third, s.other);
    }
  }

  lemma FirstWorld(enc: Encoder, s: Script)
    ensures s.At(enc, 0) == s.Start()
  {
  }

  lemma MemoryGrows(enc: Encoder, s: Script, k: nat)
    requires s.Plays(enc) && 1 <= k < 4
    ensures Plain(s.Memory(enc, k), s.cid) && (k == 2 ==> s.id in s.Memory(enc, k).collections[s.cid].documents)
    ensures s.Memory(enc, 1) == Opening(s.name, s.cid)
    ensures s.Memory(enc, k + 1)
         == WithDocument(s.Memory(enc, k), s.cid, s.Ops()[k].id, Entry(s.Offset(enc, k), s.Ops()[k].document))
  {
    hide Script.Plays, Script.Offset, Stored;
    var m := s.Memory(enc, k);
    var d := s.Documents(enc, k)[s.Ops()[k].id := Entry(s.Offset(enc, k), s.Ops()[k].document)];
    assert d == s.Documents(enc, k + 1);
    assert m.collections[s.cid := Collection(s.name, d, map[])] == s.Memory(enc, k + 1).collections;
  }

  lemma NextReasonable(enc: Encoder, s: Script, k: nat)
    requires s.Plays(enc) && k < 4
    ensures Reasonable(enc, s.Memory(enc, k), s.Calls()[k])
  {
    hide Encode, IsObjectIdHex, Get, Stores, Script.Offset;
    var m, call := s.Memory(enc, k), s.Calls()[k];
    assert Recorded(enc, s.Ops()[k]);
    if k > 0 {
      NewDocumentId(m.collections[s.cid], if k == 1 then s.first else s.third, if k == 1 then s.id else s.other) by {
        assert k == 2 || k == 1 || k == 3;
      }
    }
    assert forall w :: w in WritesOf(m, call) ==> k > 0 && w.document == s.Ops()[k].document;
  }

  lemma NothingLogged(enc: Encoder, s: Script)
    requires s.Plays(enc)
    ensures Stage(enc, s, 0)
  {
    hide Encode, ScanFrom, IsObjectIdHex;
    EmptySynced(enc, s.header);
    HeaderClean(s.header);
    FirstWorld(enc, s);
    assert s.Log(enc, 0) == [];
  }

  lemma OpRecorded(enc: Encoder, s: Script, i: nat)
    requires s.Plays(enc) && i < 4
    ensures Recorded(enc, s.Ops()[i]) && Encode(enc, s.Ops()[i]).Ok?
  {
  }

  lemma StageNext(enc: Encoder, s: Script, k: nat)
    requires s.Plays(enc) && k < 4 && Stage(enc, s, k)
    ensures Stage(enc, s, k + 1)
  {
    hide Script.Plays, Script.Memory, Script.Log, Script.Offset, Script.At, Script.Calls, Script.Ops, After, Synced, ScanFrom, Reasonable, RecordOf, Record.Encoded, Encode;
    OpRecorded(enc, s, k);
    NextReasonable(enc, s, k);
    NextWorld(enc, s, k);
    CallSynced(enc, s.At(enc, k), s.Calls()[k]);
    NextPlays(enc, s, k);
    NextLogged(enc, s, k);
  }

  /** After each call the log holds the records so far, and the memory their documents. */
  lemma {:induction false} Staged(enc: Encoder, s: Script, k: nat)
    requires s.Plays(enc) && k <= 4
    ensures Stage(enc, s, k)
  {
    hide Script.Plays, Stage, Script.Calls, Script.Ops;
    if k == 0 {
      NothingLogged(enc, s);
    } else {
      Staged(enc, s, k - 1);
      StageNext(enc, s, k - 1);
    }
  }

  lemma NextLogged(enc: Encoder, s: Script, k: nat)
    requires s.Plays(enc) && k < 4 && Stage(enc, s, k)
    ensures var next := Appended(enc, s.At(enc, k), s.Ops()[k], s.Memory(enc, k + 1));
            |next.file| == s.Offset(enc, k + 1) && ScanLog(next.file) == Scan(s.Log(enc, k + 1), |next.file|, Clean)
  {
    hide Encode, Synced, ScanFrom, IsObjectIdHex, Record.Encoded, Script.Memory;
    assert Recorded(enc, s.Ops()[k]);
    LogAppended(enc, s.At(enc, k), s.Ops()[k], s.Memory(enc, k + 1));
    assert s.Log(enc, k) + [Located(s.Offset(enc, k), s.Record(enc, k))] == s.Log(enc, k + 1);
  }

  // ---------------------------------------------------------------------------
  // What compaction makes of it
  // ---------------------------------------------------------------------------

  lemma LogDecodes(enc: Encoder, s: Script, i: nat)
    requires s.Plays(enc) && i < 4
    ensures Decode(enc, s.Record(enc, i)) == Ok(s.Ops()[i]) && !IsMarker(s.Log(enc, 4)[i])
  {
    hide Encode, Decode, Identifier;
    OpRecorded(enc, s, i);
    OperationRoundTrip(enc, s.Ops()[i]);
    EncodeValid(enc, s.Ops()[i]);
    IdentifiersDiffer(s.Ops()[i]);
  }

  lemma OffsetsGrow(enc: Encoder, s: Script)
    requires s.Plays(enc)
    ensures FILE_HEADER_BYTES == s.Offset(enc, 0) < s.Offset(enc, 1) < s.Offset(enc, 2) < s.Offset(enc, 3) < s.Offset(enc, 4)
  {
    hide Script.Plays, Script.Record;
  }

  /** Only the version that was replaced is dropped. */
  lemma ScriptKept(enc: Encoder, s: Script, i: nat)
    requires s.Plays(enc) && i < 4
    ensures KeepRecord(enc, s.Memory(enc, 4), s.Log(enc, 4)[i]) <==> i != 1
  {
    hide Encode, Decode, IsObjectIdHex, Get, Stored;
    LogDecodes(enc, s, i);
    assert s.Offset(enc, 1) < s.Offset(enc, 2) && s.Offset(enc, 2) < s.Offset(enc, 3);
  }

  lemma ScriptKeptLog(enc: Encoder, s: Script)
    requires s.Plays(enc)
    ensures var ls := s.Log(enc, 4);
            && KeptLog(enc, s.Memory(enc, 4), ls[..1]) == KeptLog(enc, s.Memory(enc, 4), ls[..2]) == [ls[0]]
            && KeptLog(enc, s.Memory(enc, 4), ls[..3]) == [ls[0], ls[2]] && KeptLog(enc, s.Memory(enc, 4), ls) == [ls[0], ls[2], ls[3]]
    ensures Moves(KeptLog(enc, s.Memory(enc, 4), s.Log(enc, 4)))
         == map[s.Offset(enc, 0) := s.Offset(enc, 0), s.Offset(enc, 2) := s.Offset(enc, 1), s.Offset(enc, 3) := s.Offset(enc, 1) + s.Record(enc, 2).Length()]
  {
    hide KeepRecord, Script.Plays, Script.Memory, Script.Record;
    var st, ls := s.Memory(enc, 4), s.Log(enc, 4);
    ScriptKept(enc, s, 0);
    ScriptKept(enc, s, 1);
    ScriptKept(enc, s, 2);
    ScriptKept(enc, s, 3);
    assert ls[..4] == ls && ls[..4][..3] == ls[..3] && ls[..3][..2] == ls[..2] && ls[..2][..1] == ls[..1] && ls[..1][..0] == [];
    assert KeptLog(enc, st, ls[..0]) == [];
    var kl := [ls[0], ls[2], ls[3]];
    assert kl[..2] == [ls[0], ls[2]] && kl[..2][..1] == [ls[0]] && kl[..2][..1][..0] == [];
    assert [ls[0], ls[2]][..1] == [ls[0]] && [ls[0]][..0] == [];
    assert Size([ls[0]]) == ls[0].record.Length();
    assert Size([ls[0], ls[2]]) == ls[0].record.Length() + ls[2].record.Length();
    assert Moves([ls[0]]) == map[s.Offset(enc, 0) := s.Offset(enc, 0)];
    assert Moves([ls[0], ls[2]]) == map[s.Offset(enc, 0) := s.Offset(enc, 0), s.Offset(enc, 2) := s.Offset(enc, 1)];
  }

  lemma ScriptOps(enc: Encoder, s: Script)
    requires s.Plays(enc)
    ensures |s.At(enc, 4).file| >= FILE_HEADER_BYTES && OpsOf(enc, s.At(enc, 4).file) == s.Stamps(enc)
  {
    hide Script.Plays, Script.Record, Decode, IsMarker, ScanFrom, Script.Offset, Script.At, Script.Memory;
    Staged(enc, s, 4);
    SyncedHeader(enc, s.At(enc, 4));
    var ls := s.Log(enc, 4);
    forall l | l in ls
      ensures !IsMarker(l) && Decode(enc, l.record).Ok?
    {
      var i :| 0 <= i < 4 && ls[i] == l;
      LogDecodes(enc, s, i);
    }
    UnmarkedAll(ls);
    forall i | 0 <= i < 4
      ensures Stamps(enc, ls)[i] == s.Stamps(enc)[i]
    {
      LogDecodes(enc, s, i);
    }
  }

  /** One declaration, and no index operation. */
  lemma StampsPlain(enc: Encoder, s: Script, st: State)
    requires s.Plays(enc)
    ensures IdsNeverReused(s.Stamps(enc)) && KeptIndexesAgree(st, s.Stamps(enc))
  {
    hide Script.Plays, Script.Offset, Stored;
    var ss := s.Stamps(enc);
    assert forall i :: 0 < i < 4 ==> ss[i].op.PutDocument?;
  }

  /** The file can be compacted. */
  lemma ScriptCompactable(enc: Encoder, s: Script)
    requires s.Plays(enc)
    ensures Synced(enc, s.At(enc, 4)) && Compactable(enc, s.At(enc, 4))
  {
    hide Script.Plays, Script.At, OpsOf, Synced, Script.Stamps, IdsNeverReused, KeptIndexesAgree, Script.Log, Script.Memory, ScanFrom;
    Staged(enc, s, 4);
    ScriptOps(enc, s);
    StampsPlain(enc, s, s.At(enc, 4).db);
  }

  // ---------------------------------------------------------------------------
  // Create an index, drop it, create it again with the other type
  // ---------------------------------------------------------------------------

  datatype IndexScript = IndexScript(header: seq<byte>, cid: CollectionId, name: Str, field: Str) {

    function Ops(): (ops: seq<Operation>)
      ensures |ops| == 4
    {
      [NewCollection(cid, name), CreateIndex(cid, field, Strings, false), DropIndex(cid, field), CreateIndex(cid, field, Numbers, false)]
    }

    function Calls(): (calls: seq<Call>)
      ensures |calls| == 4
    {
      [OpenCollection(name, cid), MakeIndex(cid, field, Strings, false), RemoveIndex(cid, field), MakeIndex(cid, field, Numbers, false)]
    }

    predicate Plays() {
      |header| == FILE_HEADER_BYTES && |cid| == 4 && |name| <= U29_MAX_VALUE && 0 < |field| <= U29_MAX_VALUE
    }

    function Memory(k: nat): State
      requires k <= 4
    {
      if k == 0 then EMPTY
      else State(map[cid := Collection(name, map[], if k == 2 then map[field := Index(Strings, false, map[])]
                                                    else if k == 4 then map[field := Index(Numbers, false, map[])] else map[])],
                 map[name := cid])
    }

    function At(enc: Encoder, k: nat): World
      requires k <= 4
    {
      Run(enc, World(header, EMPTY), Calls()[..k])
    }
  }

  predicate IndexStage(enc: Encoder, s: IndexScript, k: nat)
    requires k <= 4
  {
    var w := s.At(enc, k);
    && Synced(enc, w) && w.db == s.Memory(k) && |ScanLog(w.file).records| == k
    && forall i :: 0 <= i < k ==> Encode(enc, s.Ops()[i]) == Ok(ScanLog(w.file).records[i].record)
  }

  lemma IndexOpEncodes(enc: Encoder, s: IndexScript, i: nat)
    requires s.Plays() && i < 4
    ensures Encode(enc, s.Ops()[i]).Ok?
  {
    hide Framed;
  }

  lemma IndexCallEffect(enc: Encoder, s: IndexScript, k: nat, end: nat)
    requires s.Plays() && k < 4
    ensures Encode(enc, s.Ops()[k]).Ok?
    ensures Perform(enc, s.Memory(k), end, s.Calls()[k]) == Effect([RecordOf(enc, s.Ops()[k])], s.Memory(k + 1), false)
  {
    hide Encode, CreateIndexIn, RecordsOf;
    IndexOpEncodes(enc, s, k);
    SingleAppends(enc, World([], s.Memory(k)), s.Ops()[k], s.Memory(k + 1));
    EmptyIndexCreated(s.name, s.field, Strings);
    EmptyIndexCreated(s.name, s.field, Numbers);
    match k
    case 0 =>
    case 1 => OneCollection(s, k);
    case 2 =>
      OneCollection(s, k);
      assert map[s.field := Index(Strings, false, map[])] - {s.field} == map[];
    case 3 => OneCollection(s, k);
  }

  lemma OneCollection(s: IndexScript, k: nat)
    requires 0 < k < 4
    ensures WithCollection(s.Memory(k), s.cid, s.Memory(k + 1).collections[s.cid]) == s.Memory(k + 1)
  {
  }

  lemma IndexReasonable(enc: Encoder, s: IndexScript, k: nat)
    requires s.Plays() && k < 4
    ensures Reasonable(enc, s.Memory(k), s.Calls()[k])
  {
  }

  lemma IndexStart(enc: Encoder, s: IndexScript)
    requires s.Plays()
    ensures IndexStage(enc, s, 0)
  {
    hide Encode, ScanFrom;
    EmptySynced(enc, s.header);
    HeaderClean(s.header);
    assert s.Calls()[..0] == [];
  }

  lemma IndexNext(enc: Encoder, s: IndexScript, k: nat)
    requires s.Plays() && k < 4 && IndexStage(enc, s, k)
    ensures IndexStage(enc, s, k + 1)
  {
    hide IndexScript.Plays, IndexScript.Memory, IndexScript.Calls, IndexScript.Ops, Perform, Synced, ScanFrom, Reasonable, RecordOf, Record.Encoded, EncodeAll, Encode;
    var w, call, op := s.At(enc, k), s.Calls()[k], s.Ops()[k];
    assert s.Calls()[..k + 1][..k] == s.Calls()[..k];
    IndexReasonable(enc, s, k);
    IndexCallEffect(enc, s, k, |w.file|);
    CallSynced(enc, w, call);
    SyncedHeader(enc, w);
    SyncedLog(enc, w);
    LogAppended(enc, w, op, s.Memory(k + 1));
    EncodeOne(RecordOf(enc, op), 0);
    RecordIs(enc, op);
  }

  lemma RecordIs(enc: Encoder, op: Operation)
    requires Encode(enc, op).Ok?
    ensures Encode(enc, op) == Ok(RecordOf(enc, op))
  {
  }

  lemma {:induction false} IndexStaged(enc: Encoder, s: IndexScript, k: nat)
    requires s.Plays() && k <= 4
    ensures IndexStage(enc, s, k)
    decreases k
  {
    hide IndexStage, IndexScript.Plays;
    if k == 0 {
      IndexStart(enc, s);
    } else {
      IndexStaged(enc, s, k - 1);
      IndexNext(enc, s, k - 1);
    }
  }

  /** The log holds the four operations. */
  lemma IndexOps(enc: Encoder, s: IndexScript)
    requires s.Plays()
    ensures var w := s.At(enc, 4);
            && Synced(enc, w) && w.db == s.Memory(4) && |w.file| >= FILE_HEADER_BYTES
            && |OpsOf(enc, w.file)| == 4 && forall i :: 0 <= i < 4 ==> OpsOf(enc, w.file)[i].op == s.Ops()[i]
  {
    hide IndexScript.Plays, IndexScript.Memory, IndexScript.At, Decode, IsMarker, ScanFrom, Synced, Encode, Identifier;
    IndexStaged(enc, s, 4);
    SyncedHeader(enc, s.At(enc, 4));
    var ls := ScanLog(s.At(enc, 4).file).records;
    forall i | 0 <= i < 4
      ensures !IsMarker(ls[i]) && Decode(enc, ls[i].record) == Ok(s.Ops()[i])
    {
      OperationRoundTrip(enc, s.Ops()[i]);
      EncodeValid(enc, s.Ops()[i]);
      NoMarker(s.Ops()[i], ls[i]);
    }
    UnmarkedAll(ls);
  }

  lemma NoMarker(op: Operation, l: Located)
    requires l.record.identifier == Identifier(op) && !op.TransactionBegin? && !op.TransactionCommit?
    ensures !IsMarker(l)
  {
    hide Identifier;
    IdentifiersDiffer(op);
  }

  /**
   On a file that calls have written: both index records are kept, one for an index that is gone, and
   the compacted file cannot be opened.
   */
  lemma RecreatedIndexBreaks(enc: Encoder, s: IndexScript)
    requires s.Plays()
    ensures var w := s.At(enc, 4);
            && Synced(enc, w) && |w.file| >= FILE_HEADER_BYTES && IdsNeverReused(OpsOf(enc, w.file)) && !KeptIndexesAgree(w.db, OpsOf(enc, w.file))
            && |Compact(enc, w).file| >= FILE_HEADER_BYTES && OpenFile(enc, Compact(enc, w).file).Err?
  {
    hide IndexScript.At, Synced, OpsOf, OpenFile, Compact;
    var w := s.At(enc, 4);
    IndexOps(enc, s);
    var ss := OpsOf(enc, w.file);
    HeaderKept(enc, w);
    assert forall i :: 0 < i < 4 ==> !ss[i].op.NewCollection?;
    assert ss[1] in ss && Keep(w.db, ss[1]);
    CompactedOpens(enc, w);
  }
}
