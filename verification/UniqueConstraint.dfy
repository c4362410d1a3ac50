/** No call ever leaves two documents with the same value under a unique index. */
module UniqueConstraint {
  import opened Bytes
  import opened LogScan
  import opened Documents
  import opened Payloads
  import opened Operations
  import opened DatabaseState
  import opened Calls

  predicate AllUnique(st: State) {
    forall cid :: cid in st.collections ==> UniqueHolds(st.collections[cid])
  }

  /** One pair of documents and one field of the constraint. */
  predicate Distinct(kind: IndexKind, field: Str, d: Doc, e: Doc) {
    var k := KeyOf(kind, field, d);
    k.None? || k != KeyOf(kind, field, e)
  }

  /** Same index definitions. */
  predicate SameDefinitions(c: Collection, d: Collection) {
    c.indexes.Keys == d.indexes.Keys
    && forall f :: f in c.indexes ==> c.indexes[f].kind == d.indexes[f].kind && c.indexes[f].unique == d.indexes[f].unique
  }

  /** Where the documents after a batch come from. */
  predicate FromWrites(c: Collection, d: Collection, writes: seq<Write>) {
    forall id :: id in d.documents ==>
      || (id in c.documents && d.documents[id].document == c.documents[id].document)
      || (exists k :: 0 <= k < |writes| && writes[k] == Write(id, d.documents[id].document))
  }

  lemma OwnerFound(c: Collection, field: Str, id: Str, document: Doc, exclude: Option<Str>)
    requires Mirrors(c) && field in c.indexes && id in c.documents && exclude != Some(id)
    requires !Distinct(c.indexes[field].kind, field, document, c.documents[id].document)
    ensures var key := KeyOf(c.indexes[field].kind, field, document);
            key.Some? && Owned(c.indexes[field], key.value, exclude)
  {
    hide KeyOf;
    assert c.indexes[field].postings == Postings(c.indexes[field].kind, field, c.documents);
    assert id in c.indexes[field].postings;
  }

  /** A batch that passed the check keeps the constraint, even with repeated ids. */
  lemma BatchKeepsUnique(c: Collection, d: Collection, writes: seq<Write>)
    requires Mirrors(c) && UniqueHolds(c) && BatchFree(c, writes)
    requires SameDefinitions(c, d) && FromWrites(c, d, writes)
    ensures UniqueHolds(d)
  {
    hide KeyOf, Mirrors, Owned;
    forall f, i, j | f in d.indexes && d.indexes[f].unique && i in d.documents && j in d.documents && i != j
      ensures Distinct(d.indexes[f].kind, f, d.documents[i].document, d.documents[j].document)
    {
      PairKeepsUnique(c, d, writes, f, i, j);
      PairKeepsUnique(c, d, writes, f, j, i);
    }
  }

  lemma PairKeepsUnique(c: Collection, d: Collection, writes: seq<Write>, f: Str, i: Str, j: Str)
    requires Mirrors(c) && UniqueHolds(c) && BatchFree(c, writes)
    requires SameDefinitions(c, d) && FromWrites(c, d, writes)
    requires f in d.indexes && d.indexes[f].unique && i in d.documents && j in d.documents && i != j
    ensures Distinct(d.indexes[f].kind, f, d.documents[i].document, d.documents[j].document)
  {
    hide KeyOf, Mirrors, Owned;
    var kind, di, dj := d.indexes[f].kind, d.documents[i].document, d.documents[j].document;
    assert FieldFree(c.indexes[f], f, writes);
    var fromI := i in c.documents && di == c.documents[i].document;
    var fromJ := j in c.documents && dj == c.documents[j].document;
    if fromI && fromJ {
    } else if fromJ {
      var k :| 0 <= k < |writes| && writes[k] == Write(i, di);
      if !Distinct(kind, f, di, dj) {
        OwnerFound(c, f, j, di, Some(i));
      }
    } else if fromI {
      var k :| 0 <= k < |writes| && writes[k] == Write(j, dj);
      if !Distinct(kind, f, dj, di) {
        OwnerFound(c, f, i, dj, Some(j));
      }
    } else {
      var k :| 0 <= k < |writes| && writes[k] == Write(i, di);
      var m :| 0 <= m < |writes| && writes[m] == Write(j, dj);
    }
  }

  lemma {:induction false} PutsBatch(c: Collection, cid: CollectionId, writes: seq<Write>, ls: seq<Located>)
    requires |ls| == |writes|
    ensures var d := LiveBatch(c, Puts(cid, writes), ls);
            SameDefinitions(c, d) && FromWrites(c, d, writes)
    decreases |writes|
  {
    if |writes| > 0 {
      var n := |writes| - 1;
      PutsBatch(c, cid, writes[..n], ls[..n]);
      assert Puts(cid, writes)[..n] == Puts(cid, writes[..n]);
      var before := LiveBatch(c, Puts(cid, writes[..n]), ls[..n]);
      PutFromWrites(c, before, writes, Entry(ls[n].offset, writes[n].document));
    }
  }

  lemma PutFromWrites(c: Collection, before: Collection, writes: seq<Write>, entry: Entry)
    requires |writes| > 0 && entry.document == writes[|writes| - 1].document
    requires SameDefinitions(c, before) && FromWrites(c, before, writes[..|writes| - 1])
    ensures var d := PutInto(before, writes[|writes| - 1].id, entry);
            SameDefinitions(c, d) && FromWrites(c, d, writes)
  {
    hide KeyOf;
    var n := |writes| - 1;
    var d := PutInto(before, writes[n].id, entry);
    forall id | id in d.documents && !(id in c.documents && d.documents[id].document == c.documents[id].document)
      ensures exists k :: 0 <= k < |writes| && writes[k] == Write(id, d.documents[id].document)
    {
      if id == writes[n].id {
        assert writes[n] == Write(id, d.documents[id].document);
      } else {
        var k :| 0 <= k < n && writes[..n][k] == Write(id, d.documents[id].document);
        assert writes[k] == Write(id, d.documents[id].document);
      }
    }
  }

  /** Fewer documents under the same definitions keep the constraint. */
  lemma FewerKeepUnique(c: Collection, d: Collection)
    requires UniqueHolds(c) && SameDefinitions(c, d)
    requires forall id :: id in d.documents ==> id in c.documents && d.documents[id] == c.documents[id]
    ensures UniqueHolds(d)
  {
    hide KeyOf;
  }

  lemma {:induction false} DeletesBatch(c: Collection, cid: CollectionId, ids: seq<Str>, ls: seq<Located>)
    requires |ls| == |ids|
    ensures var d := LiveBatch(c, Deletes(cid, ids), ls);
            SameDefinitions(c, d) && forall id :: id in d.documents ==> id in c.documents && d.documents[id] == c.documents[id]
    decreases |ids|
  {
    if |ids| > 0 {
      var n := |ids| - 1;
      DeletesBatch(c, cid, ids[..n], ls[..n]);
      assert Deletes(cid, ids)[..n] == Deletes(cid, ids[..n]);
    }
  }

  /** A single checked write is a batch of one. */
  lemma FreeIsBatchFree(c: Collection, w: Write, exclude: Option<Str>)
    requires Free(c, w.document, exclude) && (exclude == Some(w.id) || (exclude == None && w.id !in c.documents))
    ensures BatchFree(c, [w])
  {
    hide KeyOf;
    forall f | f in c.indexes && c.indexes[f].unique
      ensures FieldFree(c.indexes[f], f, [w])
    {
      var key := KeyOf(c.indexes[f].kind, f, w.document);
      assert key.None? || !Owned(c.indexes[f], key.value, exclude);
    }
  }

  lemma PutKeepsUnique(c: Collection, w: Write, exclude: Option<Str>, offset: nat)
    requires Mirrors(c) && UniqueHolds(c) && Free(c, w.document, exclude)
    requires exclude == Some(w.id) || (exclude == None && w.id !in c.documents)
    ensures UniqueHolds(PutInto(c, w.id, Entry(offset, w.document)))
  {
    hide Mirrors, UniqueHolds, Free, BatchFree;
    FreeIsBatchFree(c, w, exclude);
    assert FromWrites(c, c, []);
    assert [w][..0] == [];
    PutFromWrites(c, c, [w], Entry(offset, w.document));
    BatchKeepsUnique(c, PutInto(c, w.id, Entry(offset, w.document)), [w]);
  }

  /** A unique index comes into being only over documents without duplicates. */
  lemma CreateKeepsUnique(c: Collection, field: Str, kind: IndexKind, unique: bool)
    requires Mirrors(c) && UniqueHolds(c) && CreateIndexIn(c, field, kind, unique).Ok?
    ensures UniqueHolds(CreateIndexIn(c, field, kind, unique).value)
  {
    hide KeyOf, Mirrors, RefileAll;
    var d := CreateIndexIn(c, field, kind, unique).value;
    CreateIndexMirrors(c, field, kind, unique);
    if field !in c.indexes && unique {
      assert !HasDuplicate(d.indexes[field]);
      forall i, j | i in d.documents && j in d.documents && i != j
        ensures Distinct(kind, field, d.documents[i].document, d.documents[j].document)
      {
        var ki, kj := KeyOf(kind, field, d.documents[i].document), KeyOf(kind, field, d.documents[j].document);
        if ki.Some? && kj.Some? {
          assert d.indexes[field].postings[i].key == ki.value && d.indexes[field].postings[j].key == kj.value;
        }
      }
    }
  }

  // ---------------------------------------------------------------------------
  // What is refused
  // ---------------------------------------------------------------------------

  /** A document that holds the value in the way of a write. */
  lemma OwnerOf(c: Collection, f: Str, key: Key, exclude: Option<Str>) returns (id: Str)
    requires Mirrors(c) && f in c.indexes && Owned(c.indexes[f], key, exclude)
    ensures id in c.documents && exclude != Some(id) && KeyOf(c.indexes[f].kind, f, c.documents[id].document) == Some(key)
  {
    hide KeyOf;
    assert c.indexes[f].postings == Postings(c.indexes[f].kind, f, c.documents);
    id :| id in c.indexes[f].postings && c.indexes[f].postings[id].key == key && exclude != Some(id);
  }

  /** A single write is refused exactly when it would break the constraint. */
  lemma RefusedExactly(c: Collection, w: Write, exclude: Option<Str>, offset: nat)
    requires Mirrors(c) && UniqueHolds(c)
    requires exclude == Some(w.id) || (exclude == None && w.id !in c.documents)
    ensures Free(c, w.document, exclude) <==> UniqueHolds(PutInto(c, w.id, Entry(offset, w.document)))
  {
    hide KeyOf, Mirrors, Owned, UpdatePosting;
    var d := PutInto(c, w.id, Entry(offset, w.document));
    if Free(c, w.document, exclude) {
      PutKeepsUnique(c, w, exclude, offset);
    } else {
      var f :| f in c.indexes && c.indexes[f].unique && KeyOf(c.indexes[f].kind, f, w.document).Some?
               && Owned(c.indexes[f], KeyOf(c.indexes[f].kind, f, w.document).value, exclude);
      var id := OwnerOf(c, f, KeyOf(c.indexes[f].kind, f, w.document).value, exclude);
      PutKeepsDefinitions(c, w.id, Entry(offset, w.document));
      assert id in d.documents && d.documents[id] == c.documents[id] && d.documents[w.id].document == w.document;
      assert !Distinct(d.indexes[f].kind, f, d.documents[id].document, d.documents[w.id].document);
    }
  }

  lemma PutKeepsDefinitions(c: Collection, id: Str, entry: Entry)
    ensures SameDefinitions(c, PutInto(c, id, entry))
  {
    hide KeyOf;
  }

  /** A document of the batch takes a value that another document holds before the batch. */
  predicate TakesOver(c: Collection, writes: seq<Write>) {
    exists f, i :: f in c.indexes && c.indexes[f].unique && 0 <= i < |writes|
                   && KeyOf(c.indexes[f].kind, f, writes[i].document).Some?
                   && Owned(c.indexes[f], KeyOf(c.indexes[f].kind, f, writes[i].document).value, Some(writes[i].id))
  }

  lemma {:induction false} BatchHolds(c: Collection, cid: CollectionId, writes: seq<Write>, ls: seq<Located>)
    requires |ls| == |writes| && DistinctIds(writes)
    ensures var d := LiveBatch(c, Puts(cid, writes), ls);
            forall i :: 0 <= i < |writes| ==> writes[i].id in d.documents && d.documents[writes[i].id].document == writes[i].document
    decreases |writes|
  {
    hide UpdatePosting;
    if |writes| > 0 {
      var n := |writes| - 1;
      BatchHolds(c, cid, writes[..n], ls[..n]);
      assert Puts(cid, writes)[..n] == Puts(cid, writes[..n]);
    }
  }

  /**
   A batch is refused exactly when it would break the constraint, or takes over a value that another
   document holds before it, even if the batch itself frees that value.
   */
  lemma BatchRefusedExactly(c: Collection, cid: CollectionId, writes: seq<Write>, ls: seq<Located>)
    requires Mirrors(c) && UniqueHolds(c) && |ls| == |writes| && DistinctIds(writes)
    ensures BatchFree(c, writes) <==> UniqueHolds(LiveBatch(c, Puts(cid, writes), ls)) && !TakesOver(c, writes)
  {
    hide KeyOf, Mirrors, Owned, LiveBatch, Puts, BatchFree, TakesOver, UniqueHolds, FromWrites;
    var d := LiveBatch(c, Puts(cid, writes), ls);
    PutsBatch(c, cid, writes, ls);
    if BatchFree(c, writes) {
      BatchKeepsUnique(c, d, writes);
      FreeTakesNothing(c, writes);
    } else if !TakesOver(c, writes) {
      var f, i, j := Collision(c, writes);
      BatchHolds(c, cid, writes, ls);
      assert !Distinct(d.indexes[f].kind, f, d.documents[writes[i].id].document, d.documents[writes[j].id].document);
      CollisionBreaks(d, f, writes[i].id, writes[j].id);
    }
  }

  lemma FreeTakesNothing(c: Collection, writes: seq<Write>)
    requires BatchFree(c, writes)
    ensures !TakesOver(c, writes)
  {
    hide KeyOf, Owned;
  }

  lemma Collision(c: Collection, writes: seq<Write>) returns (f: Str, i: nat, j: nat)
    requires !BatchFree(c, writes) && !TakesOver(c, writes)
    ensures f in c.indexes && c.indexes[f].unique && i < j < |writes| && writes[i].id != writes[j].id
    ensures !Distinct(c.indexes[f].kind, f, writes[i].document, writes[j].document)
  {
    hide KeyOf, Owned;
    f :| f in c.indexes && c.indexes[f].unique && !FieldFree(c.indexes[f], f, writes);
    assert forall k :: 0 <= k < |writes| ==>
      KeyOf(c.indexes[f].kind, f, writes[k].document).None? || !Owned(c.indexes[f], KeyOf(c.indexes[f].kind, f, writes[k].document).value, Some(writes[k].id));
    i, j :| 0 <= i < j < |writes| && writes[i].id != writes[j].id && !Distinct(c.indexes[f].kind, f, writes[i].document, writes[j].document);
  }

  lemma CollisionBreaks(d: Collection, f: Str, i: Str, j: Str)
    requires f in d.indexes && d.indexes[f].unique && i in d.documents && j in d.documents && i != j
    requires !Distinct(d.indexes[f].kind, f, d.documents[i].document, d.documents[j].document)
    ensures !UniqueHolds(d)
  {
    hide KeyOf;
  }

  /** Two documents cannot exchange their values in one batch. */
  lemma ExchangeRefused(c: Collection, f: Str, i: Str, j: Str, di: Doc, dj: Doc)
    requires Mirrors(c) && f in c.indexes && c.indexes[f].unique && i in c.documents && j in c.documents && i != j
    requires var kind := c.indexes[f].kind;
             && KeyOf(kind, f, di).Some? && KeyOf(kind, f, di) == KeyOf(kind, f, c.documents[j].document)
             && KeyOf(kind, f, dj).Some? && KeyOf(kind, f, dj) == KeyOf(kind, f, c.documents[i].document)
    ensures TakesOver(c, [Write(i, di), Write(j, dj)]) && !BatchFree(c, [Write(i, di), Write(j, dj)])
  {
    hide KeyOf, Mirrors, Owned;
    var writes := [Write(i, di), Write(j, dj)];
    OwnerFound(c, f, j, di, Some(i));
    assert writes[0] == Write(i, di);
  }

  /** A new unique index is refused exactly when the documents already break its constraint. */
  lemma CreateRefusedExactly(c: Collection, field: Str, kind: IndexKind)
    requires Mirrors(c) && UniqueHolds(c) && |field| > 0 && field !in c.indexes
    ensures CreateIndexIn(c, field, kind, true).Ok?
       <==> UniqueHolds(c.(indexes := c.indexes[field := Index(kind, true, Postings(kind, field, c.documents))]))
  {
    hide KeyOf, Mirrors, RefileAll, Postings;
    var d := c.(indexes := c.indexes[field := Index(kind, true, Postings(kind, field, c.documents))]);
    NewIndexMirrors(c, field, kind, true);
    if HasDuplicate(d.indexes[field]) {
      var i, j :| i in d.indexes[field].postings && j in d.indexes[field].postings && i != j
                  && d.indexes[field].postings[i].key == d.indexes[field].postings[j].key;
      PostingIs(kind, field, c.documents, i);
      PostingIs(kind, field, c.documents, j);
      CollisionBreaks(d, field, i, j);
    } else {
      CreateKeepsUnique(c, field, kind, true);
      CreateIndexMirrors(c, field, kind, true);
    }
  }

  lemma PostingIs(kind: IndexKind, field: Str, documents: map<Str, Entry>, id: Str)
    requires id in Postings(kind, field, documents)
    ensures id in documents && KeyOf(kind, field, documents[id].document) == Some(Postings(kind, field, documents)[id].key)
  {
    hide KeyOf;
  }
}
