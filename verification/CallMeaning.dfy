/**
 What the document calls mean for the documents of their collection, said without the functions that
 perform them: which documents are there afterwards, what each holds, and exactly when a call throws.
 */
module CallMeaning {
  import opened Bytes
  import opened LogScan
  import opened Documents
  import opened Payloads
  import opened Operations
  import opened DatabaseState
  import opened Calls
  import opened LiveReplay
  import opened UniqueConstraint
  import opened Runs

  const ID: Str := [0x5f, 0x69, 0x64]  // "_id"

  // ---------------------------------------------------------------------------
  // What is said of documents and indexes
  // ---------------------------------------------------------------------------

  /** The given document with the id in its id field: where it has one, or at the end. */
  ghost predicate Written(given: Doc, id: Str, stored: Doc) {
    || (exists i :: 0 <= i < |given| && given[i].key == ID && (forall j :: 0 <= j < i ==> given[j].key != ID) && stored == given[i := Field(ID, Text(id))])
    || ((forall j :: 0 <= j < |given| ==> given[j].key != ID) && stored == given + [Field(ID, Text(id))])
  }

  /** 24 lowercase hexadecimal digits. */
  predicate IsId(s: Str) {
    |s| == 24 && forall i :: 0 <= i < |s| ==> s[i] in [0x30, 0x31, 0x32, 0x33, 0x34, 0x35, 0x36, 0x37, 0x38, 0x39, 0x61, 0x62, 0x63, 0x64, 0x65, 0x66]
  }

  /** The same string for a string index, the same finite number for a number index. */
  predicate SameIndexed(kind: IndexKind, a: Option<Value>, b: Option<Value>) {
    && a.Some? && a == b
    && if kind.Strings? then a.value.Text? else a.value.Numeric? && a.value.n.Num? && -0x7ff0_0000_0000_0000 < a.value.n.key < 0x7ff0_0000_0000_0000
  }

  /** Under a unique index the two documents share a value. */
  ghost predicate Clash(c: Collection, a: Doc, b: Doc) {
    exists f :: f in c.indexes && c.indexes[f].unique && SameIndexed(c.indexes[f].kind, Get(a, f), Get(b, f))
  }

  /** Another document of the collection has a value that this one would need. */
  ghost predicate Taken(c: Collection, id: Str, document: Doc) {
    exists other :: other in c.documents && other != id && Clash(c, document, c.documents[other].document)
  }

  /** Everything but the documents and index contents of one collection is as before. */
  ghost predicate Aside(st: State, next: State, cid: CollectionId) {
    && next.names == st.names && next.collections.Keys == st.collections.Keys && cid in st.collections
    && (forall x :: x in st.collections && x != cid ==> next.collections[x] == st.collections[x])
    && next.collections[cid].name == st.collections[cid].name && SameDefinitions(st.collections[cid], next.collections[cid])
  }

  // ---------------------------------------------------------------------------
  // Storing a document under its id
  // ---------------------------------------------------------------------------

  lemma WrittenMore(given: Doc, id: Str, rest: Doc)
    requires |given| > 0 && given[0].key != ID && Written(given[1..], id, rest)
    ensures Written(given, id, [given[0]] + rest)
  {
    var tail := given[1..];
    assert given == [given[0]] + tail;
    if i :| 0 <= i < |tail| && tail[i].key == ID && (forall j :: 0 <= j < i ==> tail[j].key != ID) && rest == tail[i := Field(ID, Text(id))] {
      WrittenAt(given, id, i + 1);
      assert [given[0]] + rest == given[i + 1 := Field(ID, Text(id))];
    } else {
      assert [given[0]] + rest == given + [Field(ID, Text(id))];
    }
  }

  lemma WrittenAt(given: Doc, id: Str, i: nat)
    requires i < |given| && given[i].key == ID && forall j :: 0 <= j < i ==> given[j].key != ID
    ensures Written(given, id, given[i := Field(ID, Text(id))])
  {
  }

  lemma {:induction false} StoredWritten(given: Doc, id: Str)
    ensures Written(given, id, Stored(given, id).document)
    decreases |given|
  {
    if |given| > 0 {
      hide Written;
      if given[0].key == ID {
        WrittenAt(given, id, 0);
        assert Stored(given, id).document == given[0 := Field(ID, Text(id))];
      } else {
        StoredWritten(given[1..], id);
        WrittenMore(given, id, Stored(given[1..], id).document);
      }
    }
  }

  lemma WrittenOnce(given: Doc, id: Str, stored: Doc)
    requires Written(given, id, stored)
    ensures stored == Stored(given, id).document
  {
    StoredWritten(given, id);
  }

  /** What is stored agrees with what was given on every field but the id, and carries the id. */
  lemma {:induction false} WrittenAgrees(given: Doc, id: Str, stored: Doc, key: Str)
    requires Written(given, id, stored)
    ensures Get(stored, key) == if key == ID then Some(Text(id)) else Get(given, key)
  {
    WrittenOnce(given, id, stored);
    if key != ID {
      PutKeepsOthers(given, ID_FIELD, Text(id), key);
    }
  }

  lemma IdIsHex(s: Str)
    ensures IsObjectIdHex(s) <==> IsId(s)
  {
    assert forall d: byte :: IsHexDigit(d) <==> d in [0x30, 0x31, 0x32, 0x33, 0x34, 0x35, 0x36, 0x37, 0x38, 0x39, 0x61, 0x62, 0x63, 0x64, 0x65, 0x66];
  }

  // ---------------------------------------------------------------------------
  // Unique constraints
  // ---------------------------------------------------------------------------

  lemma KeysAgree(kind: IndexKind, field: Str, a: Doc, b: Doc)
    ensures KeyOf(kind, field, a).Some? && KeyOf(kind, field, a) == KeyOf(kind, field, b) <==> SameIndexed(kind, Get(a, field), Get(b, field))
  {
  }

  lemma OwnedIsHeld(c: Collection, f: Str, document: Doc, exclude: Option<Str>)
    requires Mirrors(c) && f in c.indexes
    ensures var key := KeyOf(c.indexes[f].kind, f, document);
            key.Some? && Owned(c.indexes[f], key.value, exclude)
            <==> exists other :: other in c.documents && Some(other) != exclude && SameIndexed(c.indexes[f].kind, Get(document, f), Get(c.documents[other].document, f))
  {
    hide KeyOf, SameIndexed;
    var kind := c.indexes[f].kind;
    var key := KeyOf(kind, f, document);
    forall other | other in c.documents
      ensures key.Some? && other in c.indexes[f].postings && c.indexes[f].postings[other].key == key.value
              <==> SameIndexed(kind, Get(document, f), Get(c.documents[other].document, f))
    {
      KeysAgree(kind, f, document, c.documents[other].document);
      assert c.indexes[f].postings == Postings(kind, f, c.documents);
    }
    assert c.indexes[f].postings.Keys <= c.documents.Keys by {
      assert c.indexes[f].postings == Postings(kind, f, c.documents);
    }
  }

  /** The check of one write refuses exactly a value that is taken. */
  lemma FreeIsNotTaken(c: Collection, id: Str, document: Doc, exclude: Option<Str>)
    requires Mirrors(c) && (exclude == Some(id) || (exclude == None && id !in c.documents))
    ensures Free(c, document, exclude) <==> !Taken(c, id, document)
  {
    hide KeyOf, SameIndexed, Owned, Mirrors;
    forall f | f in c.indexes
      ensures var key := KeyOf(c.indexes[f].kind, f, document);
              key.Some? && Owned(c.indexes[f], key.value, exclude)
              <==> exists other :: other in c.documents && other != id && SameIndexed(c.indexes[f].kind, Get(document, f), Get(c.documents[other].document, f))
    {
      OwnedIsHeld(c, f, document, exclude);
    }
  }

  /** The check of a batch refuses exactly values that are taken, or that two of its documents share. */
  lemma BatchFreeIsNotTaken(c: Collection, writes: seq<Write>)
    requires Mirrors(c)
    ensures BatchFree(c, writes) <==>
              && (forall w :: w in writes ==> !Taken(c, w.id, w.document))
              && (forall v, w :: v in writes && w in writes && v.id != w.id ==> !Clash(c, v.document, w.document))
  {
    hide KeyOf, SameIndexed, Owned, Mirrors;
    forall f, w | f in c.indexes && w in writes
      ensures var key := KeyOf(c.indexes[f].kind, f, w.document);
              key.Some? && Owned(c.indexes[f], key.value, Some(w.id))
              <==> exists other :: other in c.documents && other != w.id && SameIndexed(c.indexes[f].kind, Get(w.document, f), Get(c.documents[other].document, f))
    {
      OwnedIsHeld(c, f, w.document, Some(w.id));
    }
    forall f, i, j | f in c.indexes && 0 <= i < |writes| && 0 <= j < |writes|
      ensures var key := KeyOf(c.indexes[f].kind, f, writes[i].document);
              key.Some? && key == KeyOf(c.indexes[f].kind, f, writes[j].document)
              <==> SameIndexed(c.indexes[f].kind, Get(writes[i].document, f), Get(writes[j].document, f))
    {
      KeysAgree(c.indexes[f].kind, f, writes[i].document, writes[j].document);
    }
    PairsAnyOrder(c, writes);
  }

  lemma PairsAnyOrder(c: Collection, writes: seq<Write>)
    ensures (forall v, w :: v in writes && w in writes && v.id != w.id ==> !Clash(c, v.document, w.document))
            <==> forall i, j :: 0 <= i < j < |writes| && writes[i].id != writes[j].id ==> !Clash(c, writes[i].document, writes[j].document)
  {
    hide SameIndexed;
    if forall i, j :: 0 <= i < j < |writes| && writes[i].id != writes[j].id ==> !Clash(c, writes[i].document, writes[j].document) {
      forall v, w | v in writes && w in writes && v.id != w.id
        ensures !Clash(c, v.document, w.document)
      {
        var i :| 0 <= i < |writes| && writes[i] == v;
        var j :| 0 <= j < |writes| && writes[j] == w;
        ClashMirrors(c, v.document, w.document);
      }
    }
  }

  lemma ClashMirrors(c: Collection, a: Doc, b: Doc)
    ensures Clash(c, a, b) <==> Clash(c, b, a)
  {
  }

  // ---------------------------------------------------------------------------
  // One document
  // ---------------------------------------------------------------------------

  /** The document stands at the offset under its id; all others stay. */
  ghost predicate PutAt(c: Collection, d: Collection, id: Str, given: Doc, offset: nat) {
    && d.documents.Keys == c.documents.Keys + {id}
    && Written(given, id, d.documents[id].document) && d.documents[id].offset == offset
    && forall other :: other in c.documents && other != id ==> d.documents[other] == c.documents[other]
  }

  /** The document cannot be written: its value is taken under a unique index, or it does not encode. */
  ghost predicate Unwritable(enc: Encoder, c: Collection, id: Str, given: Doc) {
    exists stored :: Written(given, id, stored) && (Taken(c, id, stored) || !Encodes(enc, stored))
  }

  lemma UnwritableExactly(enc: Encoder, c: Collection, id: Str, given: Doc)
    ensures Unwritable(enc, c, id, given) <==> Taken(c, id, Stored(given, id).document) || !Encodes(enc, Stored(given, id).document)
  {
    hide Taken, Encodes, Written;
    StoredWritten(given, id);
    if Unwritable(enc, c, id, given) {
      var stored :| Written(given, id, stored) && (Taken(c, id, stored) || !Encodes(enc, stored));
      WrittenOnce(given, id, stored);
    }
  }

  lemma WriteOneMeans(enc: Encoder, st: State, end: nat, cid: CollectionId, id: Str, given: Doc, exclude: Option<Str>)
    requires cid in st.collections && |cid| == 4 && Mirrors(st.collections[cid]) && IsId(id)
    requires exclude == Some(id) || (exclude == None && id !in st.collections[cid].documents)
    ensures var e := WriteOne(enc, st, cid, Stored(given, id), exclude, end);
            && (e.thrown <==> Unwritable(enc, st.collections[cid], id, given))
            && (!e.thrown ==> Aside(st, e.next, cid) && PutAt(st.collections[cid], e.next.collections[cid], id, given, end))
  {
    hide Encode, Free, Taken, Encodes, Written, UpdatePosting, Mirrors;
    var c := st.collections[cid];
    IdIsHex(id);
    FreeIsNotTaken(c, id, Stored(given, id).document, exclude);
    EncodesOp(enc, PutDocument(cid, id, Stored(given, id).document));
    UnwritableExactly(enc, c, id, given);
    StoredWritten(given, id);
    PutKeepsDefinitions(c, id, Entry(end, Stored(given, id).document));
  }

  /** The document brings an id that is no id, or one that is in use. */
  predicate BringsBadId(c: Collection, document: Doc) {
    var given := Get(document, ID);
    given.Some? && !(given.value.Text? && IsId(given.value.s) && given.value.s !in c.documents)
  }

  /** The id under which the document is inserted: its own, or the new one. */
  ghost predicate InsertedAs(insert: Insert, id: Str) {
    Get(insert.document, ID) == (if id == insert.freshId && Get(insert.document, ID).None? then None else Some(Text(id)))
  }

  lemma DocumentIdMeans(c: Collection, insert: Insert)
    ensures DocumentId(c, insert).Err? <==> BringsBadId(c, insert.document)
    ensures DocumentId(c, insert).Ok? ==> InsertedAs(insert, DocumentId(c, insert).value)
    ensures DocumentId(c, insert).Ok? && IsObjectIdHex(insert.freshId) && insert.freshId !in c.documents ==>
              IsId(DocumentId(c, insert).value) && DocumentId(c, insert).value !in c.documents
  {
    hide IsObjectIdHex, IsId;
    var given := Get(insert.document, ID_FIELD);
    IdIsHex(insert.freshId);
    if given.Some? && given.value.Text? {
      IdIsHex(given.value.s);
    }
  }

  /** An insertion throws exactly for a bad id or a document that cannot be written; otherwise one new document is there. */
  lemma InsertOneMeans(enc: Encoder, st: State, end: nat, cid: CollectionId, insert: Insert) returns (id: Str)
    requires Sound(st) && cid in st.collections && Admissible(st, InsertOne(cid, insert))
    ensures var c, e := st.collections[cid], Perform(enc, st, end, InsertOne(cid, insert));
            && (e.thrown <==> BringsBadId(c, insert.document) || (InsertedAs(insert, id) && Unwritable(enc, c, id, insert.document)))
            && (!e.thrown ==> InsertedAs(insert, id) && IsId(id) && id !in c.documents
                              && Aside(st, e.next, cid) && PutAt(c, e.next.collections[cid], id, insert.document, end))
  {
    hide WriteOne, IsObjectIdHex, IsId, Mirrors, Aside, PutAt, Unwritable, InsertedAs, BringsBadId;
    var c := st.collections[cid];
    assert |cid| == 4 && Mirrors(c);
    DocumentIdMeans(c, insert);
    id := if DocumentId(c, insert).Ok? then DocumentId(c, insert).value else [];
    if DocumentId(c, insert).Ok? {
      WriteOneMeans(enc, st, end, cid, id, insert.document, None);
    }
  }

  lemma ReplaceOneMeans(enc: Encoder, st: State, end: nat, cid: CollectionId, id: Str, document: Doc)
    requires Sound(st) && cid in st.collections
    ensures var c, e := st.collections[cid], Perform(enc, st, end, ReplaceOne(cid, id, document));
            && (e.thrown <==> id !in c.documents || Unwritable(enc, c, id, document))
            && (!e.thrown ==> Aside(st, e.next, cid) && PutAt(c, e.next.collections[cid], id, document, end))
  {
    hide WriteOne, IsObjectIdHex, IsId, Mirrors, Aside, PutAt, Unwritable;
    var c := st.collections[cid];
    assert |cid| == 4 && Mirrors(c) && HexIds(c);
    if id in c.documents {
      IdIsHex(id);
      WriteOneMeans(enc, st, end, cid, id, document, Some(id));
    }
  }

  /** An update throws exactly when the update does or its result cannot be written; a missing document is left missing. */
  lemma UpdateOneMeans(enc: Encoder, st: State, end: nat, cid: CollectionId, id: Str, update: Doc -> Result<Doc>)
    requires Sound(st) && cid in st.collections
    ensures var c, e := st.collections[cid], Perform(enc, st, end, UpdateOne(cid, id, update));
            if id !in c.documents then !e.thrown && e.next == st
            else
              var updated := update(c.documents[id].document);
              && (e.thrown <==> updated.Err? || Unwritable(enc, c, id, updated.value))
              && (!e.thrown ==> Aside(st, e.next, cid) && PutAt(c, e.next.collections[cid], id, updated.value, end))
  {
    hide WriteOne, IsObjectIdHex, IsId, Mirrors, Aside, PutAt, Unwritable;
    var c := st.collections[cid];
    assert |cid| == 4 && Mirrors(c) && HexIds(c);
    if id in c.documents && update(c.documents[id].document).Ok? {
      IdIsHex(id);
      WriteOneMeans(enc, st, end, cid, id, update(c.documents[id].document).value, Some(id));
    }
  }

  /** A deletion never throws: the document is gone, all others stay. */
  lemma DeleteOneMeans(enc: Encoder, st: State, end: nat, cid: CollectionId, id: Str)
    requires Sound(st) && cid in st.collections
    ensures var e := Perform(enc, st, end, DeleteOne(cid, id));
            !e.thrown && Aside(st, e.next, cid) && Without(st.collections[cid], e.next.collections[cid], {id})
  {
    hide Encode, IsObjectIdHex, Mirrors, RemovePosting;
    var c := st.collections[cid];
    assert |cid| == 4 && HexIds(c);
    if id in c.documents {
      EncodesOp(enc, DeleteDocument(cid, id));
      RemoveDefinitions(c, id);
    }
  }

  /** These documents are gone, if they were there; all others stay. */
  ghost predicate Without(c: Collection, d: Collection, ids: set<Str>) {
    d.documents.Keys == c.documents.Keys - ids && forall id :: id in d.documents ==> d.documents[id] == c.documents[id]
  }

  lemma RemoveDefinitions(c: Collection, id: Str)
    ensures SameDefinitions(c, RemoveFrom(c, id)) && RemoveFrom(c, id).name == c.name
  {
  }

  // ---------------------------------------------------------------------------
  // Batches
  // ---------------------------------------------------------------------------

  /** Each document of a batch is under its id, the last one if an id repeats; all others stay. */
  ghost predicate Landed(c: Collection, d: Collection, writes: seq<Write>, ls: seq<Located>)
    requires |ls| == |writes|
  {
    && (forall id :: id in d.documents <==> id in c.documents || exists w :: w in writes && w.id == id)
    && (forall id :: id in c.documents && (forall w :: w in writes ==> w.id != id) ==> id in d.documents && d.documents[id] == c.documents[id])
    && (forall w :: w in writes ==> w.id in d.documents && LandsBy(d.documents[w.id], w.id, writes, ls))
  }

  ghost predicate LandsBy(e: Entry, id: Str, writes: seq<Write>, ls: seq<Located>)
    requires |ls| == |writes|
  {
    exists k :: 0 <= k < |writes| && writes[k].id == id && e == Entry(ls[k].offset, writes[k].document)
  }

  lemma LandsMore(e: Entry, id: Str, writes: seq<Write>, ls: seq<Located>)
    requires |ls| == |writes| > 0 && LandsBy(e, id, writes[..|writes| - 1], ls[..|ls| - 1])
    ensures LandsBy(e, id, writes, ls)
  {
    var n := |writes| - 1;
    var k :| 0 <= k < n && writes[..n][k].id == id && e == Entry(ls[..n][k].offset, writes[..n][k].document);
    assert writes[k].id == id && e == Entry(ls[k].offset, writes[k].document);
  }

  lemma LandOne(c: Collection, before: Collection, d: Collection, writes: seq<Write>, ls: seq<Located>)
    requires |ls| == |writes| > 0 && Landed(c, before, writes[..|writes| - 1], ls[..|ls| - 1])
    requires d.documents == before.documents[writes[|writes| - 1].id := Entry(ls[|ls| - 1].offset, writes[|writes| - 1].document)]
    ensures Landed(c, d, writes, ls)
  {
    hide LandsBy;
    var n := |writes| - 1;
    assert forall w :: w in writes <==> w in writes[..n] || w == writes[n];
    forall w | w in writes
      ensures w.id in d.documents && LandsBy(d.documents[w.id], w.id, writes, ls)
    {
      if w.id == writes[n].id {
        LandsLast(writes, ls);
      } else {
        LandsMore(d.documents[w.id], w.id, writes, ls);
      }
    }
  }

  lemma LandsLast(writes: seq<Write>, ls: seq<Located>)
    requires |ls| == |writes| > 0
    ensures LandsBy(Entry(ls[|ls| - 1].offset, writes[|writes| - 1].document), writes[|writes| - 1].id, writes, ls)
  {
  }

  lemma PutIs(c: Collection, id: Str, e: Entry)
    ensures PutInto(c, id, e).documents == c.documents[id := e] && PutInto(c, id, e).name == c.name && SameDefinitions(c, PutInto(c, id, e))
  {
    hide UpdatePosting;
    PutKeepsDefinitions(c, id, e);
  }

  lemma LastPut(c: Collection, cid: CollectionId, writes: seq<Write>, ls: seq<Located>)
    requires |ls| == |writes|
    ensures |writes| == 0 ==> LiveBatch(c, Puts(cid, writes), ls) == c
    ensures |writes| > 0 ==>
              var n := |writes| - 1;
              LiveBatch(c, Puts(cid, writes), ls)
              == PutInto(LiveBatch(c, Puts(cid, writes[..n]), ls[..n]), writes[n].id, Entry(ls[n].offset, writes[n].document))
  {
    hide PutInto;
    if |writes| > 0 {
      assert Puts(cid, writes)[..|writes| - 1] == Puts(cid, writes[..|writes| - 1]);
    }
  }

  lemma LastDelete(c: Collection, cid: CollectionId, ids: seq<Str>, ls: seq<Located>)
    requires |ls| == |ids|
    ensures |ids| == 0 ==> LiveBatch(c, Deletes(cid, ids), ls) == c
    ensures |ids| > 0 ==> var n := |ids| - 1; LiveBatch(c, Deletes(cid, ids), ls) == RemoveFrom(LiveBatch(c, Deletes(cid, ids[..n]), ls[..n]), ids[n])
  {
    hide RemoveFrom;
    if |ids| > 0 {
      assert Deletes(cid, ids)[..|ids| - 1] == Deletes(cid, ids[..|ids| - 1]);
    }
  }

  lemma {:induction false} PutsLand(c: Collection, cid: CollectionId, writes: seq<Write>, ls: seq<Located>)
    requires |ls| == |writes|
    ensures var d := LiveBatch(c, Puts(cid, writes), ls); d.name == c.name && SameDefinitions(c, d) && Landed(c, d, writes, ls)
    decreases |writes|
  {
    hide PutInto, LiveBatch, Landed;
    LastPut(c, cid, writes, ls);
    if |writes| == 0 {
      NothingLands(c, writes, ls);
    } else {
      var n := |writes| - 1;
      PutsLand(c, cid, writes[..n], ls[..n]);
      var before := LiveBatch(c, Puts(cid, writes[..n]), ls[..n]);
      PutIs(before, writes[n].id, Entry(ls[n].offset, writes[n].document));
      LandOne(c, before, LiveBatch(c, Puts(cid, writes), ls), writes, ls);
    }
  }

  lemma {:induction false} DeletesLand(c: Collection, cid: CollectionId, ids: seq<Str>, ls: seq<Located>)
    requires |ls| == |ids|
    ensures var d := LiveBatch(c, Deletes(cid, ids), ls);
            d.name == c.name && SameDefinitions(c, d) && Without(c, d, set id | id in ids)
    decreases |ids|
  {
    hide RemoveFrom, LiveBatch, SameDefinitions;
    LastDelete(c, cid, ids, ls);
    if |ids| == 0 {
      SameAsItself(c);
    } else {
      var n := |ids| - 1;
      DeletesLand(c, cid, ids[..n], ls[..n]);
      RemoveIs(c, LiveBatch(c, Deletes(cid, ids[..n]), ls[..n]), ids[n]);
      assert ids == ids[..n] + [ids[n]];
      assert (set id | id in ids) == (set id | id in ids[..n]) + {ids[n]};
    }
  }

  lemma SameAsItself(c: Collection)
    ensures SameDefinitions(c, c)
  {
  }

  lemma RemoveIs(c: Collection, before: Collection, id: Str)
    requires SameDefinitions(c, before)
    ensures RemoveFrom(before, id).documents == before.documents - {id} && RemoveFrom(before, id).name == before.name
    ensures SameDefinitions(c, RemoveFrom(before, id))
  {
    RemoveDefinitions(before, id);
  }

  /** A batch throws exactly if one of its documents cannot be written, or two of them share a value. */
  ghost predicate BatchUnwritable(enc: Encoder, c: Collection, writes: seq<Write>) {
    || (exists w :: w in writes && (Taken(c, w.id, w.document) || !Encodes(enc, w.document)))
    || (exists v, w :: v in writes && w in writes && v.id != w.id && Clash(c, v.document, w.document))
  }

  ghost predicate AllLanded(c: Collection, d: Collection, writes: seq<Write>) {
    exists ls: seq<Located> :: |ls| == |writes| && Landed(c, d, writes, ls)
  }

  lemma WriteBatchMeans(enc: Encoder, st: State, end: nat, cid: CollectionId, writes: seq<Write>)
    requires cid in st.collections && |cid| == 4 && Mirrors(st.collections[cid]) && HexWrites(writes)
    ensures var c, e := st.collections[cid], WriteBatch(enc, st, cid, writes, end);
            && (e.thrown <==> BatchUnwritable(enc, c, writes))
            && (!e.thrown ==> Aside(st, e.next, cid) && cid in e.next.collections && AllLanded(c, e.next.collections[cid], writes))
  {
    hide RecordsOf, LiveBatch, Landed, BatchFree, Mirrors, IsObjectIdHex, Encodes, Taken, Clash, SameDefinitions;
    var c, e := st.collections[cid], WriteBatch(enc, st, cid, writes, end);
    BatchFreeIsNotTaken(c, writes);
    var ops := Puts(cid, writes);
    if |writes| == 0 {
      NothingLands(c, writes, []);
      assert AllLanded(c, c, writes);
      AsideItself(st, cid);
      assert st.collections[cid] == c;
    } else {
      PutsAreWhole(enc, cid, writes);
      if !e.thrown {
        var ls := Locate(e.records, end)[1..|ops| + 1];
        PutsLand(c, cid, writes, ls);
        assert AllLanded(c, e.next.collections[cid], writes);
      }
    }
  }

  lemma NothingLands(c: Collection, writes: seq<Write>, ls: seq<Located>)
    requires |writes| == |ls| == 0
    ensures Landed(c, c, writes, ls)
  {
  }

  lemma AsideItself(st: State, cid: CollectionId)
    requires cid in st.collections
    ensures Aside(st, st, cid)
  {
  }

  lemma PutsAreWhole(enc: Encoder, cid: CollectionId, writes: seq<Write>)
    requires |cid| == 4 && HexWrites(writes)
    ensures |RecordsOf(enc, Envelope(Puts(cid, writes)))| == |writes| + 2 <==> forall w :: w in writes ==> Encodes(enc, w.document)
  {
    hide RecordsOf, IsObjectIdHex, Encodes;
    var ops := Puts(cid, writes);
    forall op | op in ops
      ensures op.PutDocument? && |op.collectionId| == 4 && IsObjectIdHex(op.id)
    {
      var i :| 0 <= i < |ops| && op == ops[i];
      assert writes[i] in writes;
    }
    WholeBatch(enc, ops);
    assert forall i :: 0 <= i < |writes| ==> ops[i] in ops && writes[i] in writes;
  }

  // ---------------------------------------------------------------------------
  // Updating many
  // ---------------------------------------------------------------------------

  predicate UpdateThrows(c: Collection, ids: seq<Str>, update: Doc -> Result<Doc>) {
    exists id :: id in ids && id in c.documents && update(c.documents[id].document).Err?
  }

  lemma {:induction false} UpdatesAre(c: Collection, ids: seq<Str>, update: Doc -> Result<Doc>)
    ensures PrepareUpdates(c, ids, update).Err? <==> UpdateThrows(c, ids, update)
    ensures PrepareUpdates(c, ids, update).Ok? ==>
              && (forall w :: w in PrepareUpdates(c, ids, update).value ==>
                    w.id in ids && w.id in c.documents && w == Stored(update(c.documents[w.id].document).value, w.id))
              && (forall id :: id in ids && id in c.documents ==> exists w :: w in PrepareUpdates(c, ids, update).value && w.id == id)
    decreases |ids|
  {
    hide Put;
    if |ids| > 0 {
      UpdatesAre(c, ids[1..], update);
      assert forall id :: id in ids <==> id == ids[0] || id in ids[1..];
      if PrepareUpdates(c, ids, update).Ok? && ids[0] in c.documents {
        var first := Stored(update(c.documents[ids[0]].document).value, ids[0]);
        var rest := PrepareUpdates(c, ids[1..], update).value;
        assert PrepareUpdates(c, ids, update).value == [first] + rest;
        assert first in [first] + rest && forall w :: w in rest ==> w in [first] + rest;
      }
    }
  }

  /** Nothing that is to be updated throws, but a result cannot be written, or two results share a value. */
  ghost predicate UpdatesUnwritable(enc: Encoder, c: Collection, ids: seq<Str>, update: Doc -> Result<Doc>)
    requires !UpdateThrows(c, ids, update)
  {
    || (exists id :: id in ids && id in c.documents && Unwritable(enc, c, id, update(c.documents[id].document).value))
    || (exists id, other, a, b :: id in ids && id in c.documents && other in ids && other in c.documents && id != other
          && Written(update(c.documents[id].document).value, id, a) && Written(update(c.documents[other].document).value, other, b) && Clash(c, a, b))
  }

  /** Every document that was to be updated is; every other one is the same entry as before. */
  ghost predicate UpdatedTo(c: Collection, d: Collection, ids: seq<Str>, update: Doc -> Result<Doc>) {
    && d.documents.Keys == c.documents.Keys
    && forall id :: id in c.documents ==>
         if id in ids then update(c.documents[id].document).Ok? && Written(update(c.documents[id].document).value, id, d.documents[id].document)
         else d.documents[id] == c.documents[id]
  }

  lemma UpdatesUnwritableExactly(enc: Encoder, c: Collection, ids: seq<Str>, update: Doc -> Result<Doc>)
    requires PrepareUpdates(c, ids, update).Ok? && !UpdateThrows(c, ids, update)
    ensures UpdatesUnwritable(enc, c, ids, update) <==> BatchUnwritable(enc, c, PrepareUpdates(c, ids, update).value)
  {
    hide PrepareUpdates, Written, Unwritable, Taken, Clash, Encodes, Put;
    var writes := PrepareUpdates(c, ids, update).value;
    UpdatesAre(c, ids, update);
    forall id | id in ids && id in c.documents
      ensures exists w :: w in writes && w.id == id && w == Stored(update(c.documents[id].document).value, id)
      ensures Unwritable(enc, c, id, update(c.documents[id].document).value)
              <==> var s := Stored(update(c.documents[id].document).value, id).document; Taken(c, id, s) || !Encodes(enc, s)
      ensures forall a :: Written(update(c.documents[id].document).value, id, a) <==> a == Stored(update(c.documents[id].document).value, id).document
    {
      var w :| w in writes && w.id == id;
      UnwritableExactly(enc, c, id, update(c.documents[id].document).value);
      StoredWritten(update(c.documents[id].document).value, id);
      forall a | Written(update(c.documents[id].document).value, id, a)
        ensures a == Stored(update(c.documents[id].document).value, id).document
      {
        WrittenOnce(update(c.documents[id].document).value, id, a);
      }
    }
    assert forall w :: w in writes ==> w.id in ids && w.id in c.documents;
    if v, w :| v in writes && w in writes && v.id != w.id && Clash(c, v.document, w.document) {
      assert Written(update(c.documents[v.id].document).value, v.id, v.document) && Written(update(c.documents[w.id].document).value, w.id, w.document);
    }
  }

  lemma OneLanded(c: Collection, d: Collection, writes: seq<Write>, id: Str)
    requires AllLanded(c, d, writes) && id in c.documents
    ensures id in d.documents
    ensures (forall w :: w in writes ==> w.id != id) ==> d.documents[id] == c.documents[id]
    ensures (exists w :: w in writes && w.id == id) ==> Write(id, d.documents[id].document) in writes
  {
    var ls: seq<Located> :| |ls| == |writes| && Landed(c, d, writes, ls);
    if w :| w in writes && w.id == id {
      var k :| 0 <= k < |writes| && writes[k].id == id && d.documents[id] == Entry(ls[k].offset, writes[k].document);
      assert writes[k] == Write(id, d.documents[id].document);
    }
  }

  lemma LandedKeys(c: Collection, d: Collection, writes: seq<Write>)
    requires AllLanded(c, d, writes) && forall w :: w in writes ==> w.id in c.documents
    ensures d.documents.Keys == c.documents.Keys
  {
  }

  lemma UpdatesLand(c: Collection, d: Collection, ids: seq<Str>, update: Doc -> Result<Doc>)
    requires PrepareUpdates(c, ids, update).Ok? && AllLanded(c, d, PrepareUpdates(c, ids, update).value)
    ensures UpdatedTo(c, d, ids, update)
  {
    hide PrepareUpdates, Written, Stored, AllLanded;
    var writes := PrepareUpdates(c, ids, update).value;
    UpdatesAre(c, ids, update);
    LandedKeys(c, d, writes);
    forall id | id in c.documents
      ensures if id in ids then update(c.documents[id].document).Ok? && Written(update(c.documents[id].document).value, id, d.documents[id].document)
              else d.documents[id] == c.documents[id]
    {
      OneLanded(c, d, writes, id);
      if id in ids {
        StoredWritten(update(c.documents[id].document).value, id);
        assert Write(id, d.documents[id].document) in writes;
      }
    }
  }

  /**
   Updating many throws exactly if the update throws on one of the documents, a result cannot be written, or two share a
   value; otherwise every one of the documents that is there is updated, and nothing else changes.
   */
  lemma UpdateManyMeans(enc: Encoder, st: State, end: nat, cid: CollectionId, ids: seq<Str>, update: Doc -> Result<Doc>)
    requires Sound(st) && cid in st.collections
    ensures var c, e := st.collections[cid], Perform(enc, st, end, UpdateMany(cid, ids, update));
            && (e.thrown <==> UpdateThrows(c, ids, update) || UpdatesUnwritable(enc, c, ids, update))
            && (!e.thrown ==> Aside(st, e.next, cid) && UpdatedTo(c, e.next.collections[cid], ids, update))
  {
    hide WriteBatch, PrepareUpdates, Mirrors, Aside, UpdatedTo, UpdatesUnwritable, UpdateThrows, BatchUnwritable, AllLanded, IsObjectIdHex;
    var c := st.collections[cid];
    assert |cid| == 4 && Mirrors(c) && HexIds(c);
    UpdatesAre(c, ids, update);
    var writes := PrepareUpdates(c, ids, update);
    if writes.Ok? {
      UpdatesHex(c, ids, update);
      UpdatesUnwritableExactly(enc, c, ids, update);
      WriteBatchMeans(enc, st, end, cid, writes.value);
      NoWrites(enc, st, cid, writes.value, end);
      var e := WriteBatch(enc, st, cid, writes.value, end);
      if !e.thrown {
        UpdatesLand(c, e.next.collections[cid], ids, update);
      }
    }
  }

  lemma NoWrites(enc: Encoder, st: State, cid: CollectionId, writes: seq<Write>, end: nat)
    requires cid in st.collections
    ensures |writes| == 0 ==> WriteBatch(enc, st, cid, writes, end) == Unchanged(st)
  {
  }

  // ---------------------------------------------------------------------------
  // Deleting many
  // ---------------------------------------------------------------------------

  lemma {:induction false} ExistingAre(c: Collection, ids: seq<Str>)
    ensures forall id :: id in Existing(c, ids) <==> id in ids && id in c.documents
    decreases |ids|
  {
    if |ids| > 0 {
      ExistingAre(c, ids[1..]);
      assert forall id :: id in ids <==> id == ids[0] || id in ids[1..];
    }
  }

  /** Deleting many never throws: these documents are gone, all others stay. */
  lemma DeleteManyMeans(enc: Encoder, st: State, end: nat, cid: CollectionId, ids: seq<Str>)
    requires Sound(st) && cid in st.collections
    ensures var e := Perform(enc, st, end, DeleteMany(cid, ids));
            !e.thrown && Aside(st, e.next, cid) && Without(st.collections[cid], e.next.collections[cid], set id | id in ids)
  {
    hide Existing, Batch, IsObjectIdHex, Aside;
    var c := st.collections[cid];
    var existing := Existing(c, ids);
    ExistingAre(c, ids);
    if |existing| == 0 {
      AsideItself(st, cid);
      assert forall id :: id in ids ==> id !in c.documents by {
        assert forall id :: id in ids && id in c.documents ==> id in existing;
      }
    } else {
      SoundCollection(st, cid);
      DeletesWhole(enc, st, end, cid, existing);
      BatchDeletes(enc, st, end, cid, existing);
    }
  }

  lemma BatchDeletes(enc: Encoder, st: State, end: nat, cid: CollectionId, ids: seq<Str>)
    requires cid in st.collections
    ensures var e := Batch(enc, st, cid, Deletes(cid, ids), end);
            !e.thrown ==> Aside(st, e.next, cid) && Without(st.collections[cid], e.next.collections[cid], set id | id in ids)
  {
    hide RecordsOf, LiveBatch, SameDefinitions, Deletes;
    var e := Batch(enc, st, cid, Deletes(cid, ids), end);
    if !e.thrown {
      DeletesLand(st.collections[cid], cid, ids, Locate(e.records, end)[1..|ids| + 1]);
    }
  }

  // ---------------------------------------------------------------------------
  // Inserting many
  // ---------------------------------------------------------------------------

  lemma {:induction false} InsertsAre(c: Collection, inserts: seq<Insert>)
    requires forall i :: i in inserts ==> IsObjectIdHex(i.freshId) && i.freshId !in c.documents
    ensures PrepareInserts(c, inserts).Err? <==> exists i :: 0 <= i < |inserts| && BringsBadId(c, inserts[i].document)
    ensures PrepareInserts(c, inserts).Ok? ==>
              var writes := PrepareInserts(c, inserts).value;
              && |writes| == |inserts|
              && forall i :: 0 <= i < |inserts| ==> InsertedAs(inserts[i], writes[i].id) && IsId(writes[i].id) && writes[i].id !in c.documents
                                                    && writes[i] == Stored(inserts[i].document, writes[i].id)
    decreases |inserts|
  {
    hide IsObjectIdHex, IsId, InsertedAs, BringsBadId, DocumentId, Put;
    if |inserts| > 0 {
      assert inserts[0] in inserts;
      DocumentIdMeans(c, inserts[0]);
      InsertsAre(c, inserts[1..]);
      assert forall i :: 0 < i < |inserts| ==> inserts[i] == inserts[1..][i - 1];
      if i :| 0 <= i < |inserts[1..]| && BringsBadId(c, inserts[1..][i].document) {
        assert BringsBadId(c, inserts[i + 1].document);
      }
    }
  }

  /** The documents of the batch under these ids: an id repeats, one cannot be written, or two share a value. */
  ghost predicate InsertsUnwritable(enc: Encoder, c: Collection, inserts: seq<Insert>, ids: seq<Str>)
    requires |ids| == |inserts|
  {
    || (exists i, j :: 0 <= i < j < |ids| && ids[i] == ids[j])
    || (exists i :: 0 <= i < |ids| && Unwritable(enc, c, ids[i], inserts[i].document))
    || (exists i, j, a, b :: 0 <= i < |ids| && 0 <= j < |ids| && ids[i] != ids[j]
          && Written(inserts[i].document, ids[i], a) && Written(inserts[j].document, ids[j], b) && Clash(c, a, b))
  }

  /** Every document of the batch is there under its id; all others stay. */
  ghost predicate InsertedAll(c: Collection, d: Collection, inserts: seq<Insert>, ids: seq<Str>)
    requires |ids| == |inserts|
  {
    && d.documents.Keys == c.documents.Keys + (set id | id in ids)
    && (forall i :: 0 <= i < |ids| ==> ids[i] !in c.documents && ids[i] in d.documents && Written(inserts[i].document, ids[i], d.documents[ids[i]].document))
    && (forall id :: id in c.documents ==> d.documents[id] == c.documents[id])
  }

  ghost predicate IdsGiven(inserts: seq<Insert>, ids: seq<Str>) {
    |ids| == |inserts| && forall i :: 0 <= i < |ids| ==> InsertedAs(inserts[i], ids[i]) && IsId(ids[i])
  }

  lemma InsertsUnwritableExactly(enc: Encoder, c: Collection, inserts: seq<Insert>, writes: seq<Write>, ids: seq<Str>)
    requires |writes| == |inserts| == |ids| && forall i :: 0 <= i < |ids| ==> ids[i] == writes[i].id && writes[i] == Stored(inserts[i].document, ids[i])
    ensures InsertsUnwritable(enc, c, inserts, ids) <==> !DistinctIds(writes) || BatchUnwritable(enc, c, writes)
  {
    hide Written, Unwritable, Taken, Clash, Encodes, Put;
    forall i | 0 <= i < |ids|
      ensures writes[i] in writes
      ensures Unwritable(enc, c, ids[i], inserts[i].document) <==> Taken(c, writes[i].id, writes[i].document) || !Encodes(enc, writes[i].document)
      ensures forall a :: Written(inserts[i].document, ids[i], a) <==> a == writes[i].document
    {
      UnwritableExactly(enc, c, ids[i], inserts[i].document);
      StoredWritten(inserts[i].document, ids[i]);
      forall a | Written(inserts[i].document, ids[i], a)
        ensures a == writes[i].document
      {
        WrittenOnce(inserts[i].document, ids[i], a);
      }
    }
    if v, w :| v in writes && w in writes && v.id != w.id && Clash(c, v.document, w.document) {
      var i :| 0 <= i < |writes| && writes[i] == v;
      var j :| 0 <= j < |writes| && writes[j] == w;
      assert Written(inserts[i].document, ids[i], v.document) && Written(inserts[j].document, ids[j], w.document) && ids[i] != ids[j];
    }
  }

  /** With distinct ids each document of a batch is there, and nothing else is new. */
  lemma DistinctLand(c: Collection, d: Collection, writes: seq<Write>)
    requires DistinctIds(writes) && AllLanded(c, d, writes)
    ensures forall i :: 0 <= i < |writes| ==> writes[i].id in d.documents && d.documents[writes[i].id].document == writes[i].document
    ensures forall id :: id in d.documents ==> id in c.documents || exists i :: 0 <= i < |writes| && writes[i].id == id
    ensures forall id :: id in c.documents ==> id in d.documents
    ensures forall id :: id in c.documents && (forall i :: 0 <= i < |writes| ==> writes[i].id != id) ==> d.documents[id] == c.documents[id]
  {
    var ls: seq<Located> :| |ls| == |writes| && Landed(c, d, writes, ls);
    forall i | 0 <= i < |writes|
      ensures writes[i].id in d.documents && d.documents[writes[i].id].document == writes[i].document
    {
      assert writes[i] in writes;
      var k :| 0 <= k < |writes| && writes[k].id == writes[i].id && d.documents[writes[i].id] == Entry(ls[k].offset, writes[k].document);
    }
    forall id | id in d.documents && id !in c.documents
      ensures exists i :: 0 <= i < |writes| && writes[i].id == id
    {
      var w :| w in writes && w.id == id;
    }
  }

  lemma InsertsLand(c: Collection, d: Collection, inserts: seq<Insert>, writes: seq<Write>, ids: seq<Str>)
    requires |writes| == |inserts| == |ids| && DistinctIds(writes) && AllLanded(c, d, writes)
    requires forall i :: 0 <= i < |ids| ==> ids[i] == writes[i].id && writes[i] == Stored(inserts[i].document, ids[i]) && ids[i] !in c.documents
    ensures InsertedAll(c, d, inserts, ids)
  {
    hide Written, Put, AllLanded, DistinctIds;
    DistinctLand(c, d, writes);
    forall i | 0 <= i < |ids|
      ensures ids[i] in d.documents && Written(inserts[i].document, ids[i], d.documents[ids[i]].document)
    {
      StoredWritten(inserts[i].document, ids[i]);
    }
    assert forall id :: id in c.documents ==> forall i :: 0 <= i < |writes| ==> writes[i].id != id;
    assert forall i :: 0 <= i < |ids| ==> ids[i] in ids;
  }

  /** Inserting many throws exactly for a bad id or a batch that cannot be written; otherwise all of its documents are there. */
  lemma InsertManyMeans(enc: Encoder, st: State, end: nat, cid: CollectionId, inserts: seq<Insert>) returns (ids: seq<Str>)
    requires Sound(st) && cid in st.collections && Admissible(st, InsertMany(cid, inserts))
    ensures var c, e := st.collections[cid], Perform(enc, st, end, InsertMany(cid, inserts));
            && (e.thrown <==> (exists i :: 0 <= i < |inserts| && BringsBadId(c, inserts[i].document))
                              || (IdsGiven(inserts, ids) && InsertsUnwritable(enc, c, inserts, ids)))
            && (!e.thrown ==> IdsGiven(inserts, ids) && Aside(st, e.next, cid) && InsertedAll(c, e.next.collections[cid], inserts, ids))
  {
    hide WriteBatch, PrepareInserts, InsertedAll, InsertsUnwritable, InsertedAs, BringsBadId, IsObjectIdHex, IsId, DistinctIds, Put, Aside, IdsGiven;
    var c := st.collections[cid];
    assert forall i :: i in inserts ==> NewId(st, cid, i.freshId);
    InsertsAre(c, inserts);
    ids := [];
    if PrepareInserts(c, inserts).Ok? {
      ids := InsertsPrepared(enc, st, end, cid, inserts);
    }
  }

  lemma InsertsPrepared(enc: Encoder, st: State, end: nat, cid: CollectionId, inserts: seq<Insert>) returns (ids: seq<Str>)
    requires Sound(st) && cid in st.collections && (forall i :: i in inserts ==> NewId(st, cid, i.freshId))
    requires PrepareInserts(st.collections[cid], inserts).Ok?
    ensures var c, writes := st.collections[cid], PrepareInserts(st.collections[cid], inserts).value;
            var e := WriteBatch(enc, st, cid, writes, end);
            && IdsGiven(inserts, ids)
            && (InsertsUnwritable(enc, c, inserts, ids) <==> !DistinctIds(writes) || e.thrown)
            && (DistinctIds(writes) && !e.thrown ==> Aside(st, e.next, cid) && cid in e.next.collections && InsertedAll(c, e.next.collections[cid], inserts, ids))
  {
    hide WriteBatch, PrepareInserts, Mirrors, Aside, InsertedAll, InsertsUnwritable, InsertedAs, BringsBadId, BatchUnwritable, AllLanded, IsObjectIdHex, IsId, DistinctIds, Stored, HexWrites, Sound;
    var c, writes := st.collections[cid], PrepareInserts(st.collections[cid], inserts).value;
    SoundCollection(st, cid);
    InsertsAre(c, inserts);
    InsertsHex(c, inserts);
    ids := seq(|inserts|, i requires 0 <= i < |inserts| => writes[i].id);
    InsertsUnwritableExactly(enc, c, inserts, writes, ids);
    WriteBatchMeans(enc, st, end, cid, writes);
    var e := WriteBatch(enc, st, cid, writes, end);
    if DistinctIds(writes) && !e.thrown {
      InsertsLand(c, e.next.collections[cid], inserts, writes, ids);
    }
  }

  lemma SoundCollection(st: State, cid: CollectionId)
    requires Sound(st) && cid in st.collections
    ensures |cid| == 4 && Mirrors(st.collections[cid]) && HexIds(st.collections[cid])
  {
  }

  // ---------------------------------------------------------------------------
  // Collections and indexes
  // ---------------------------------------------------------------------------

  /** An index is filed: each document with a value of its kind, under that value and the offset of its current version. */
  ghost predicate Filed(index: Index, field: Str, documents: map<Str, Entry>) {
    && (forall id :: id in index.postings <==> id in documents && SameIndexed(index.kind, Get(documents[id].document, field), Get(documents[id].document, field)))
    && (forall id :: id in index.postings ==>
          index.postings[id].offset == documents[id].offset && Shows(index.kind, index.postings[id].key, Get(documents[id].document, field)))
  }

  /** The key is that of the value, and of the kind. */
  predicate Shows(kind: IndexKind, key: Key, value: Option<Value>) {
    value.Some? && match key
      case StringKey(s) => kind.Strings? && value.value == Text(s)
      case NumberKey(k) => kind.Numbers? && value.value.Numeric? && value.value.n.Num? && value.value.n.key == k
  }

  /** Mirrored indexes are filed ones. */
  lemma MirrorsMeans(c: Collection)
    ensures Mirrors(c) <==> forall f :: f in c.indexes ==> Filed(c.indexes[f], f, c.documents)
  {
    forall f | f in c.indexes
      ensures c.indexes[f].postings == Postings(c.indexes[f].kind, f, c.documents) <==> Filed(c.indexes[f], f, c.documents)
    {
      FiledIs(c.indexes[f], f, c.documents);
    }
  }

  lemma FiledIs(index: Index, field: Str, documents: map<Str, Entry>)
    ensures index.postings == Postings(index.kind, field, documents) <==> Filed(index, field, documents)
  {
    var p := Postings(index.kind, field, documents);
    assert forall id :: id in p <==> id in documents && SameIndexed(index.kind, Get(documents[id].document, field), Get(documents[id].document, field));
    if Filed(index, field, documents) {
      forall id | id in p
        ensures index.postings[id] == p[id]
      {
      }
    }
  }

  /** The definition cannot be: an empty field, another definition on the field, or documents that share a value. */
  ghost predicate BadIndex(c: Collection, field: Str, kind: IndexKind, unique: bool) {
    || |field| == 0
    || (field in c.indexes && (c.indexes[field].kind != kind || c.indexes[field].unique != unique))
    || (field !in c.indexes && unique
        && exists i, j :: i in c.documents && j in c.documents && i != j && SameIndexed(kind, Get(c.documents[i].document, field), Get(c.documents[j].document, field)))
  }

  lemma DuplicateMeans(c: Collection, field: Str, kind: IndexKind, unique: bool)
    ensures HasDuplicate(Index(kind, unique, Postings(kind, field, c.documents)))
            <==> exists i, j :: i in c.documents && j in c.documents && i != j && SameIndexed(kind, Get(c.documents[i].document, field), Get(c.documents[j].document, field))
  {
    hide KeyOf, SameIndexed;
    var p := Postings(kind, field, c.documents);
    forall i, j | i in c.documents && j in c.documents
      ensures i in p && j in p && p[i].key == p[j].key <==> SameIndexed(kind, Get(c.documents[i].document, field), Get(c.documents[j].document, field))
    {
      KeysAgree(kind, field, c.documents[i].document, c.documents[j].document);
    }
  }

  lemma CreationMeans(c: Collection, field: Str, kind: IndexKind, unique: bool)
    requires Mirrors(c)
    ensures CreateIndexIn(c, field, kind, unique).Err? <==> BadIndex(c, field, kind, unique)
  {
    hide HasDuplicate, Postings, Mirrors, RefileAll, SameIndexed;
    DuplicateMeans(c, field, kind, unique);
    if |field| > 0 && field !in c.indexes {
      NewIndexMirrors(c, field, kind, unique);
    }
  }

  /** Only the definitions of one collection differ, and by this one. */
  ghost predicate Defined(st: State, next: State, cid: CollectionId, field: Str, kind: IndexKind, unique: bool) {
    && next.names == st.names && cid in st.collections && cid in next.collections
    && (forall x :: x in st.collections && x != cid ==> x in next.collections && next.collections[x] == st.collections[x])
    && (forall x :: x in next.collections ==> x in st.collections)
    && var c, d := st.collections[cid], next.collections[cid];
       && d.name == c.name && d.documents == c.documents && d.indexes.Keys == c.indexes.Keys + {field}
       && d.indexes[field].kind == kind && d.indexes[field].unique == unique && Filed(d.indexes[field], field, c.documents)
       && forall f :: f in c.indexes ==> d.indexes[f] == c.indexes[f] || f == field
  }

  /** Creating an index throws exactly for a bad definition, and for a new one whose name is too long; in the second case it is there all the same. */
  lemma MakeIndexMeans(enc: Encoder, st: State, end: nat, cid: CollectionId, field: Str, kind: IndexKind, unique: bool)
    requires Sound(st) && cid in st.collections
    ensures var c, e := st.collections[cid], Perform(enc, st, end, MakeIndex(cid, field, kind, unique));
            && (e.thrown <==> BadIndex(c, field, kind, unique) || (field !in c.indexes && |field| > 0x1fff_ffff))
            && (if BadIndex(c, field, kind, unique) then e.next == st else Defined(st, e.next, cid, field, kind, unique))
  {
    hide CreateIndexIn, BadIndex, Mirrors, Filed, Encode, Postings;
    var c := st.collections[cid];
    SoundCollection(st, cid);
    CreationMeans(c, field, kind, unique);
    if !BadIndex(c, field, kind, unique) {
      CreateIndexMirrors(c, field, kind, unique);
      FiledIs(Index(kind, unique, Postings(kind, field, c.documents)), field, c.documents);
      IndexEncodes(enc, cid, field, kind, unique);
      SameDefinitionOnly(c, field, kind, unique);
    }
  }

  lemma SameDefinitionOnly(c: Collection, field: Str, kind: IndexKind, unique: bool)
    requires !BadIndex(c, field, kind, unique)
    ensures field in c.indexes ==> c.indexes[field].kind == kind && c.indexes[field].unique == unique
  {
    hide SameIndexed;
  }

  /** Dropping an index throws exactly for an unknown field or one too long to be written; otherwise that index is gone and nothing else. */
  lemma RemoveIndexMeans(enc: Encoder, st: State, end: nat, cid: CollectionId, field: Str)
    requires Sound(st) && cid in st.collections
    ensures var c, e := st.collections[cid], Perform(enc, st, end, RemoveIndex(cid, field));
            && (e.thrown <==> field !in c.indexes || |field| > 0x1fff_ffff)
            && (e.thrown ==> e.next == st)
            && (!e.thrown ==>
                  && e.next.names == st.names && e.next.collections == st.collections[cid := e.next.collections[cid]]
                  && var d := e.next.collections[cid];
                     d.name == c.name && d.documents == c.documents && d.indexes == c.indexes - {field})
  {
    hide Mirrors, Framed;
    SoundCollection(st, cid);
    assert Encode(enc, DropIndex(cid, field)).Ok? <==> |field| <= 0x1fff_ffff;
  }

  /** Dropping a collection never throws: it is gone with its name, and nothing else. */
  lemma DropMeans(enc: Encoder, st: State, end: nat, cid: CollectionId)
    requires Sound(st) && cid in st.collections
    ensures var e := Perform(enc, st, end, Call.Drop(cid));
            !e.thrown && e.next.collections == st.collections - {cid} && e.next.names == st.names - {st.collections[cid].name}
  {
    hide Mirrors;
    SoundCollection(st, cid);
    assert Encode(enc, DropCollection(cid)).Ok?;
  }

  /** Opening a collection throws exactly for a new name too long to be written; a new one is empty, and nothing else changes. */
  lemma OpenCollectionMeans(enc: Encoder, st: State, end: nat, name: Str, newId: CollectionId)
    requires Admissible(st, OpenCollection(name, newId))
    ensures var e := Perform(enc, st, end, OpenCollection(name, newId));
            && (e.thrown <==> name !in st.names && |name| > 0x1fff_ffff)
            && (e.thrown || name in st.names ==> e.next == st)
            && (!e.thrown && name !in st.names ==>
                  && e.next.names == st.names[name := newId] && newId !in st.collections
                  && e.next.collections == st.collections[newId := Collection(name, map[], map[])])
  {
    hide Framed;
    assert Encode(enc, NewCollection(newId, name)).Ok? <==> |name| <= 0x1fff_ffff;
  }
}
