/**
 Which operations compaction keeps, and what replaying only those gives: the same collections,
 documents, indexes and index contents, at new offsets. Stated on operations stamped with
 the offset of their record, in log order, without transaction markers.
 */
module Compaction {
  import opened Bytes
  import opened Documents
  import opened Payloads
  import opened Operations
  import opened DatabaseState
  import opened UniqueConstraint

  datatype Stamped = Stamped(offset: nat, op: Operation)

  function ApplyOps(st: State, ss: seq<Stamped>): Result<State> {
    if |ss| == 0 then Ok(st)
    else
      var before :- ApplyOps(st, ss[..|ss| - 1]);
      Apply(before, ss[|ss| - 1].op, ss[|ss| - 1].offset)
  }

  /** `shouldKeepOperation`, for an operation whose record decodes. */
  predicate Keep(st: State, s: Stamped) {
    match s.op
    case NewCollection(cid, _) => cid in st.collections
    case CreateIndex(cid, field, _, _) => cid in st.collections && field in st.collections[cid].indexes
    case PutDocument(cid, id, _) =>
      cid in st.collections && id in st.collections[cid].documents && st.collections[cid].documents[id].offset == s.offset
    case _ => false
  }

  function Kept(st: State, ss: seq<Stamped>): (ks: seq<Stamped>)
    ensures forall k :: k in ks ==> k in ss && Keep(st, k)
  {
    if |ss| == 0 then []
    else Kept(st, ss[..|ss| - 1]) + (if Keep(st, ss[|ss| - 1]) then [ss[|ss| - 1]] else [])
  }

  function MovedOffset(mv: map<nat, nat>, offset: nat): nat {
    if offset in mv then mv[offset] else offset
  }

  function Move(ss: seq<Stamped>, mv: map<nat, nat>): (ms: seq<Stamped>)
    ensures |ms| == |ss|
    ensures forall i :: 0 <= i < |ss| ==> ms[i] == Stamped(MovedOffset(mv, ss[i].offset), ss[i].op)
  {
    seq(|ss|, i requires 0 <= i < |ss| => Stamped(MovedOffset(mv, ss[i].offset), ss[i].op))
  }

  // ---------------------------------------------------------------------------
  // The state with every offset moved
  // ---------------------------------------------------------------------------

  function MoveEntry(e: Entry, mv: map<nat, nat>): Entry {
    Entry(MovedOffset(mv, e.offset), e.document)
  }

  function MoveDocuments(documents: map<Str, Entry>, mv: map<nat, nat>): map<Str, Entry> {
    map id | id in documents :: MoveEntry(documents[id], mv)
  }

  /** Offsets moved in the documents, and indexes filed anew over them. */
  function Relocate(c: Collection, mv: map<nat, nat>): Collection {
    var documents := MoveDocuments(c.documents, mv);
    Collection(c.name, documents,
               map f | f in c.indexes :: Index(c.indexes[f].kind, c.indexes[f].unique, Postings(c.indexes[f].kind, f, documents)))
  }

  function RelocateState(st: State, mv: map<nat, nat>): State {
    State(map cid | cid in st.collections :: Relocate(st.collections[cid], mv), st.names)
  }

  // ---------------------------------------------------------------------------
  // Where the parts of a state come from
  // ---------------------------------------------------------------------------

  ghost predicate Declares(s: Stamped, cid: CollectionId) {
    s.op.NewCollection? && s.op.collectionId == cid
  }

  ghost predicate Declared(ss: seq<Stamped>, cid: CollectionId) {
    exists s :: s in ss && Declares(s, cid)
  }

  ghost predicate Creates(s: Stamped, cid: CollectionId, field: Str) {
    s.op.CreateIndex? && s.op.collectionId == cid && s.op.field == field
  }

  ghost predicate Created(ss: seq<Stamped>, cid: CollectionId, field: Str) {
    exists s :: s in ss && Creates(s, cid, field)
  }

  function PutStamp(cid: CollectionId, id: Str, e: Entry): Stamped {
    Stamped(e.offset, PutDocument(cid, id, e.document))
  }

  /** Every collection, document and index of the state has its operation in the log. */
  ghost predicate Traced(st: State, ss: seq<Stamped>) {
    forall cid :: cid in st.collections ==> TracedCollection(st.collections[cid], cid, ss)
  }

  ghost predicate TracedCollection(c: Collection, cid: CollectionId, ss: seq<Stamped>) {
    && (exists o :: Stamped(o, NewCollection(cid, c.name)) in ss)
    && (forall id :: id in c.documents ==> PutStamp(cid, id, c.documents[id]) in ss)
    && (forall f :: f in c.indexes ==> TracedIndex(c.indexes[f], cid, f, ss))
  }

  ghost predicate TracedIndex(index: Index, cid: CollectionId, field: Str, ss: seq<Stamped>) {
    exists o :: Stamped(o, CreateIndex(cid, field, index.kind, index.unique)) in ss
  }

  lemma TracedMore(c: Collection, cid: CollectionId, ss: seq<Stamped>, s: Stamped)
    requires TracedCollection(c, cid, ss)
    ensures TracedCollection(c, cid, ss + [s])
  {
    var o :| Stamped(o, NewCollection(cid, c.name)) in ss;
    assert Stamped(o, NewCollection(cid, c.name)) in ss + [s];
    forall f | f in c.indexes
      ensures TracedIndex(c.indexes[f], cid, f, ss + [s])
    {
      assert TracedIndex(c.indexes[f], cid, f, ss);
      var p :| Stamped(p, CreateIndex(cid, f, c.indexes[f].kind, c.indexes[f].unique)) in ss;
      assert Stamped(p, CreateIndex(cid, f, c.indexes[f].kind, c.indexes[f].unique)) in ss + [s];
    }
  }

  lemma ApplyTraced(st: State, ss: seq<Stamped>, s: Stamped)
    requires Traced(st, ss) && AllMirror(st) && Apply(st, s.op, s.offset).Ok?
    ensures Traced(Apply(st, s.op, s.offset).value, ss + [s])
  {
    hide TracedCollection, PutInto, RemoveFrom, CreateIndexIn, DropIndexIn, Mirrors;
    var next := Apply(st, s.op, s.offset).value;
    forall cid | cid in next.collections
      ensures TracedCollection(next.collections[cid], cid, ss + [s])
    {
      if cid in st.collections {
        TracedMore(st.collections[cid], cid, ss, s);
      }
      match s.op
      case NewCollection(c, name) => if c == cid { NewTraced(cid, name, ss, s); }
      case PutDocument(c, id, document) => if c == cid { PutTraced(st.collections[cid], cid, ss, s); }
      case DeleteDocument(c, id) => if c == cid { FewerTraced(st.collections[cid], RemoveFrom(st.collections[cid], id), cid, ss + [s], id); }
      case CreateIndex(c, field, kind, unique) => if c == cid { CreateTraced(st.collections[cid], cid, ss, s); }
      case DropIndex(c, field) => if c == cid { DropTraced(st.collections[cid], cid, ss + [s], field); }
      case _ =>
    }
  }

  lemma NewTraced(cid: CollectionId, name: Str, ss: seq<Stamped>, s: Stamped)
    requires s.op == NewCollection(cid, name)
    ensures TracedCollection(Collection(name, map[], map[]), cid, ss + [s])
  {
    assert Stamped(s.offset, NewCollection(cid, name)) in ss + [s];
  }

  lemma PutTraced(c: Collection, cid: CollectionId, ss: seq<Stamped>, s: Stamped)
    requires TracedCollection(c, cid, ss + [s]) && s.op.PutDocument? && s.op.collectionId == cid
    ensures TracedCollection(PutInto(c, s.op.id, Entry(s.offset, s.op.document)), cid, ss + [s])
  {
    hide KeyOf;
    var d := PutInto(c, s.op.id, Entry(s.offset, s.op.document));
    assert PutStamp(cid, s.op.id, Entry(s.offset, s.op.document)) == s;
    forall f | f in d.indexes
      ensures TracedIndex(d.indexes[f], cid, f, ss + [s])
    {
      assert TracedIndex(c.indexes[f], cid, f, ss + [s]);
    }
  }

  lemma FewerTraced(c: Collection, d: Collection, cid: CollectionId, ss: seq<Stamped>, id: Str)
    requires TracedCollection(c, cid, ss) && d == RemoveFrom(c, id)
    ensures TracedCollection(d, cid, ss)
  {
    forall f | f in d.indexes
      ensures TracedIndex(d.indexes[f], cid, f, ss)
    {
      assert TracedIndex(c.indexes[f], cid, f, ss);
    }
  }

  lemma CreateTraced(c: Collection, cid: CollectionId, ss: seq<Stamped>, s: Stamped)
    requires TracedCollection(c, cid, ss + [s]) && Mirrors(c) && s.op.CreateIndex? && s.op.collectionId == cid
    requires CreateIndexIn(c, s.op.field, s.op.kind, s.op.unique).Ok?
    ensures TracedCollection(CreateIndexIn(c, s.op.field, s.op.kind, s.op.unique).value, cid, ss + [s])
  {
    hide KeyOf, RefileAll, Mirrors;
    var d := CreateIndexIn(c, s.op.field, s.op.kind, s.op.unique).value;
    CreateIndexMirrors(c, s.op.field, s.op.kind, s.op.unique);
    forall f | f in d.indexes
      ensures TracedIndex(d.indexes[f], cid, f, ss + [s])
    {
      if f == s.op.field {
        assert Stamped(s.offset, CreateIndex(cid, f, s.op.kind, s.op.unique)) in ss + [s];
      } else {
        assert TracedIndex(c.indexes[f], cid, f, ss + [s]);
      }
    }
  }

  lemma DropTraced(c: Collection, cid: CollectionId, ss: seq<Stamped>, field: Str)
    requires TracedCollection(c, cid, ss) && DropIndexIn(c, field).Ok?
    ensures TracedCollection(DropIndexIn(c, field).value, cid, ss)
  {
  }

  /** What holds of a state built from nothing by these operations. */
  lemma {:induction false} OpsTraced(ss: seq<Stamped>)
    requires ApplyOps(EMPTY, ss).Ok?
    ensures Traced(ApplyOps(EMPTY, ss).value, ss) && AllMirror(ApplyOps(EMPTY, ss).value)
    decreases |ss|
  {
    hide Apply, Mirrors, TracedCollection;
    if |ss| > 0 {
      var n := |ss| - 1;
      OpsTraced(ss[..n]);
      ApplyTraced(ApplyOps(EMPTY, ss[..n]).value, ss[..n], ss[n]);
      ApplyMirrors(ApplyOps(EMPTY, ss[..n]).value, ss[n].op, ss[n].offset);
      assert ss[..n] + [ss[n]] == ss;
    }
  }

  // ---------------------------------------------------------------------------
  // Logs that compaction can be trusted with
  // ---------------------------------------------------------------------------

  /** No collection id is declared twice: random ids do not repeat, not even after a drop. */
  ghost predicate IdsNeverReused(ss: seq<Stamped>) {
    forall i, j, cid :: 0 <= i < j < |ss| && Declares(ss[i], cid) ==> !Declares(ss[j], cid)
  }

  predicate OffsetsIncrease(ss: seq<Stamped>) {
    forall i, j :: 0 <= i < j < |ss| ==> ss[i].offset < ss[j].offset
  }

  /** Every index record that compaction keeps defines the index as it is now. */
  predicate KeptIndexesAgree(st: State, ss: seq<Stamped>) {
    forall s :: s in ss && s.op.CreateIndex? && Keep(st, s) ==>
      var index := st.collections[s.op.collectionId].indexes[s.op.field];
      index.kind == s.op.kind && index.unique == s.op.unique
  }

  ghost predicate WellLogged(st: State, ss: seq<Stamped>) {
    ApplyOps(EMPTY, ss) == Ok(st) && OffsetsIncrease(ss) && IdsNeverReused(ss) && AllUnique(st) && NamesConsistent(st)
  }

  lemma {:induction false} PrefixApplies(st: State, ss: seq<Stamped>, k: nat)
    requires ApplyOps(st, ss).Ok? && k <= |ss|
    ensures ApplyOps(st, ss[..k]).Ok?
    decreases |ss|
  {
    hide Apply;
    if k < |ss| {
      PrefixApplies(st, ss[..|ss| - 1], k);
      assert ss[..|ss| - 1][..k] == ss[..k];
    } else {
      assert ss[..k] == ss;
    }
  }

  /** A document or index operation stands behind the declaration of its collection. */
  lemma DeclaredBefore(ss: seq<Stamped>, k: nat)
    requires ApplyOps(EMPTY, ss).Ok? && k < |ss| && (ss[k].op.PutDocument? || ss[k].op.CreateIndex?)
    ensures Declared(ss[..k], ss[k].op.collectionId)
    ensures ss[k].op.CreateIndex? ==> |ss[k].op.field| > 0
  {
    hide PutInto, TracedIndex;
    PrefixApplies(EMPTY, ss, k);
    PrefixApplies(EMPTY, ss, k + 1);
    assert ss[..k + 1][..k] == ss[..k] && ss[..k + 1][k] == ss[k];
    OpsTraced(ss[..k]);
    var st := ApplyOps(EMPTY, ss[..k]).value;
    var cid := ss[k].op.collectionId;
    assert cid in st.collections && TracedCollection(st.collections[cid], cid, ss[..k]);
    var o :| Stamped(o, NewCollection(cid, st.collections[cid].name)) in ss[..k];
    assert Declares(Stamped(o, NewCollection(cid, st.collections[cid].name)), cid);
  }

  // ---------------------------------------------------------------------------
  // The part of the final state that a prefix of the log accounts for
  // ---------------------------------------------------------------------------

  ghost function PartialDocuments(c: Collection, cid: CollectionId, pre: seq<Stamped>, mv: map<nat, nat>): map<Str, Entry> {
    map id | id in c.documents && PutStamp(cid, id, c.documents[id]) in pre :: MoveEntry(c.documents[id], mv)
  }

  ghost function PartialCollection(c: Collection, cid: CollectionId, pre: seq<Stamped>, mv: map<nat, nat>): Collection {
    var documents := PartialDocuments(c, cid, pre, mv);
    Collection(c.name, documents,
               map f | f in c.indexes && Created(pre, cid, f) ::
                 Index(c.indexes[f].kind, c.indexes[f].unique, Postings(c.indexes[f].kind, f, documents)))
  }

  ghost function PartialState(st: State, pre: seq<Stamped>, mv: map<nat, nat>): State {
    State(map cid | cid in st.collections && Declared(pre, cid) :: PartialCollection(st.collections[cid], cid, pre, mv),
          map n | n in st.names && Declared(pre, st.names[n]) :: st.names[n])
  }

  lemma SameByMirror(c: Collection, d: Collection)
    requires Mirrors(c) && Mirrors(d) && c.name == d.name && c.documents == d.documents && SameDefinitions(c, d)
    ensures c == d
  {
    hide KeyOf, Postings;
    assert forall f :: f in c.indexes ==> c.indexes[f] == d.indexes[f];
    assert c.indexes == d.indexes;
  }

  lemma PartialMirrors(c: Collection, cid: CollectionId, pre: seq<Stamped>, mv: map<nat, nat>)
    ensures Mirrors(PartialCollection(c, cid, pre, mv))
  {
    hide KeyOf, Postings;
  }

  /** A collection that an operation does not concern keeps its part. */
  lemma PartialUntouched(c: Collection, cid: CollectionId, pre: seq<Stamped>, s: Stamped, mv: map<nat, nat>)
    requires forall id :: id in c.documents ==> s != PutStamp(cid, id, c.documents[id])
    requires forall f :: f in c.indexes ==> !Creates(s, cid, f)
    ensures PartialCollection(c, cid, pre + [s], mv) == PartialCollection(c, cid, pre, mv)
  {
    hide KeyOf, Postings;
    assert PartialDocuments(c, cid, pre + [s], mv) == PartialDocuments(c, cid, pre, mv);
    forall f | f in c.indexes
      ensures Created(pre + [s], cid, f) <==> Created(pre, cid, f)
    {
      CreatedMore(pre, s, cid, f);
    }
  }

  lemma CreatedMore(pre: seq<Stamped>, s: Stamped, cid: CollectionId, field: Str)
    ensures Created(pre + [s], cid, field) <==> Created(pre, cid, field) || Creates(s, cid, field)
  {
    if Created(pre, cid, field) {
      var t :| t in pre && Creates(t, cid, field);
      assert t in pre + [s];
    }
    if Creates(s, cid, field) {
      assert s in pre + [s];
    }
  }

  lemma DeclaredMore(pre: seq<Stamped>, s: Stamped, cid: CollectionId)
    ensures Declared(pre + [s], cid) <==> Declared(pre, cid) || Declares(s, cid)
  {
    if Declared(pre, cid) {
      var t :| t in pre && Declares(t, cid);
      assert t in pre + [s];
    }
    if Declares(s, cid) {
      assert s in pre + [s];
    }
  }

  /** A dropped operation accounts for nothing. */
  lemma DroppedStep(st: State, pre: seq<Stamped>, s: Stamped, mv: map<nat, nat>)
    requires !Keep(st, s) && NamesConsistent(st)
    ensures PartialState(st, pre + [s], mv) == PartialState(st, pre, mv)
  {
    hide PartialCollection;
    forall cid | cid in st.collections
      ensures Declared(pre + [s], cid) <==> Declared(pre, cid)
      ensures PartialCollection(st.collections[cid], cid, pre + [s], mv) == PartialCollection(st.collections[cid], cid, pre, mv)
    {
      DeclaredMore(pre, s, cid);
      PartialUntouched(st.collections[cid], cid, pre, s, mv);
    }
    assert PartialState(st, pre + [s], mv).collections == PartialState(st, pre, mv).collections;
    assert PartialState(st, pre + [s], mv).names == PartialState(st, pre, mv).names;
  }

  /** A kept document or index operation changes the part of its collection only. */
  lemma KeptFrame(st: State, pre: seq<Stamped>, s: Stamped, mv: map<nat, nat>, cid: CollectionId)
    requires (s.op.PutDocument? || s.op.CreateIndex?) && s.op.collectionId == cid
    requires cid in st.collections && Declared(pre, cid)
    ensures PartialState(st, pre + [s], mv)
         == WithCollection(PartialState(st, pre, mv), cid, PartialCollection(st.collections[cid], cid, pre + [s], mv))
  {
    hide PartialCollection;
    forall c | c in st.collections
      ensures Declared(pre + [s], c) <==> Declared(pre, c)
      ensures c != cid ==> PartialCollection(st.collections[c], c, pre + [s], mv) == PartialCollection(st.collections[c], c, pre, mv)
    {
      DeclaredMore(pre, s, c);
      if c != cid {
        PartialUntouched(st.collections[c], c, pre, s, mv);
      }
    }
    var after, changed := PartialState(st, pre + [s], mv), PartialState(st, pre, mv);
    assert after.collections == changed.collections[cid := PartialCollection(st.collections[cid], cid, pre + [s], mv)];
    assert after.names == changed.names by {
      assert forall n :: n in st.names ==> (Declared(pre + [s], st.names[n]) <==> Declared(pre, st.names[n])) by {
        forall n | n in st.names {
          DeclaredMore(pre, s, st.names[n]);
        }
      }
    }
  }

  /** A put adds its document and no index. */
  lemma PartialPut(c: Collection, cid: CollectionId, pre: seq<Stamped>, s: Stamped, mv: map<nat, nat>)
    requires s.op.PutDocument? && s.op.id in c.documents && s == PutStamp(cid, s.op.id, c.documents[s.op.id])
    ensures var before, after := PartialCollection(c, cid, pre, mv), PartialCollection(c, cid, pre + [s], mv);
            && after.documents == before.documents[s.op.id := Entry(MovedOffset(mv, s.offset), s.op.document)]
            && SameDefinitions(before, after)
  {
    hide Postings;
    forall f | f in c.indexes
      ensures Created(pre + [s], cid, f) <==> Created(pre, cid, f)
    {
      CreatedMore(pre, s, cid, f);
    }
  }

  lemma KeptPut(c: Collection, cid: CollectionId, pre: seq<Stamped>, s: Stamped, mv: map<nat, nat>)
    requires s.op.PutDocument? && s.op.id in c.documents && s == PutStamp(cid, s.op.id, c.documents[s.op.id])
    ensures PutInto(PartialCollection(c, cid, pre, mv), s.op.id, Entry(MovedOffset(mv, s.offset), s.op.document))
         == PartialCollection(c, cid, pre + [s], mv)
  {
    hide PartialDocuments, Postings, Mirrors, UpdatePosting;
    var before, after := PartialCollection(c, cid, pre, mv), PartialCollection(c, cid, pre + [s], mv);
    var entry := Entry(MovedOffset(mv, s.offset), s.op.document);
    PartialPut(c, cid, pre, s, mv);
    PartialMirrors(c, cid, pre, mv);
    PartialMirrors(c, cid, pre + [s], mv);
    PutMirrors(before, s.op.id, entry);
    PutKeepsDefinitions(before, s.op.id, entry);
    hide PartialCollection;
    SameByMirror(PutInto(before, s.op.id, entry), after);
  }

  /** An index operation adds its index over the documents so far. */
  lemma PartialCreate(c: Collection, cid: CollectionId, pre: seq<Stamped>, s: Stamped, mv: map<nat, nat>)
    requires s.op.CreateIndex? && s.op.collectionId == cid && s.op.field in c.indexes
    ensures var before, after := PartialCollection(c, cid, pre, mv), PartialCollection(c, cid, pre + [s], mv);
            var index := c.indexes[s.op.field];
            after == before.(indexes := before.indexes[s.op.field := Index(index.kind, index.unique, Postings(index.kind, s.op.field, before.documents))])
  {
    hide Postings;
    forall f | f in c.indexes
      ensures Created(pre + [s], cid, f) <==> Created(pre, cid, f) || f == s.op.field
    {
      CreatedMore(pre, s, cid, f);
    }
    assert PartialDocuments(c, cid, pre + [s], mv) == PartialDocuments(c, cid, pre, mv);
  }

  lemma KeptCreate(c: Collection, cid: CollectionId, pre: seq<Stamped>, s: Stamped, mv: map<nat, nat>)
    requires s.op.CreateIndex? && s.op.collectionId == cid && |s.op.field| > 0
    requires s.op.field in c.indexes && c.indexes[s.op.field].kind == s.op.kind && c.indexes[s.op.field].unique == s.op.unique
    requires UniqueHolds(c)
    ensures CreateIndexIn(PartialCollection(c, cid, pre, mv), s.op.field, s.op.kind, s.op.unique)
         == Ok(PartialCollection(c, cid, pre + [s], mv))
  {
    hide Postings, Mirrors, CreateIndexIn, HasDuplicate, PartialDocuments, UniqueHolds;
    var before := PartialCollection(c, cid, pre, mv);
    var field := s.op.field;
    PartialMirrors(c, cid, pre, mv);
    if c.indexes[field].unique {
      NoDuplicate(c, cid, pre, mv, field);
    }
    NewIndexIs(before, field, s.op.kind, s.op.unique);
    CreateIndexMirrors(before, field, s.op.kind, s.op.unique);
    PartialCreate(c, cid, pre, s, mv);
  }

  lemma NewIndexIs(c: Collection, field: Str, kind: IndexKind, unique: bool)
    requires Mirrors(c) && |field| > 0
    requires field in c.indexes ==> c.indexes[field].kind == kind && c.indexes[field].unique == unique
    requires field !in c.indexes && unique ==> !HasDuplicate(Index(kind, unique, Postings(kind, field, c.documents)))
    ensures CreateIndexIn(c, field, kind, unique).Ok?
  {
    hide Postings, Mirrors, RefileAll, HasDuplicate;
    if field !in c.indexes {
      NewIndexMirrors(c, field, kind, unique);
    }
  }

  /** A subset of documents without duplicates has none. */
  lemma NoDuplicate(c: Collection, cid: CollectionId, pre: seq<Stamped>, mv: map<nat, nat>, field: Str)
    requires UniqueHolds(c) && field in c.indexes && c.indexes[field].unique
    ensures var kind := c.indexes[field].kind;
            !HasDuplicate(Index(kind, true, Postings(kind, field, PartialDocuments(c, cid, pre, mv))))
  {
    hide KeyOf;
  }

  lemma SameOffsetSameOp(ss: seq<Stamped>, s: Stamped, t: Stamped)
    requires OffsetsIncrease(ss) && s in ss && t in ss && s.offset == t.offset
    ensures s == t
  {
  }

  lemma KeptNew(st: State, ss: seq<Stamped>, k: nat, mv: map<nat, nat>)
    requires WellLogged(st, ss) && k < |ss| && ss[k].op.NewCollection? && Keep(st, ss[k])
    ensures var cid := ss[k].op.collectionId;
            && st.collections[cid].name == ss[k].op.name && !Declared(ss[..k], cid)
            && PartialCollection(st.collections[cid], cid, ss[..k + 1], mv) == Collection(ss[k].op.name, map[], map[])
  {
    hide TracedIndex, Apply, AllUnique, NamesConsistent, KeyOf, Postings;
    var cid := ss[k].op.collectionId;
    var c := st.collections[cid];
    OpsTraced(ss);
    assert TracedCollection(c, cid, ss);
    assert Declares(ss[k], cid);
    var o :| Stamped(o, NewCollection(cid, c.name)) in ss;
    var i :| 0 <= i < |ss| && ss[i] == Stamped(o, NewCollection(cid, c.name));
    assert Declares(ss[i], cid) && i == k;
    forall j | k < j < |ss| || 0 <= j < k
      ensures !Declares(ss[j], cid)
    {
    }
    assert PartialDocuments(c, cid, ss[..k + 1], mv) == map[] by {
      forall id | id in c.documents
        ensures PutStamp(cid, id, c.documents[id]) !in ss[..k + 1]
      {
        NotYet(ss, k, cid, PutStamp(cid, id, c.documents[id]));
      }
    }
    forall f | f in c.indexes
      ensures !Created(ss[..k + 1], cid, f)
    {
      if Created(ss[..k + 1], cid, f) {
        var t :| t in ss[..k + 1] && Creates(t, cid, f);
        NotYet(ss, k, cid, t);
      }
    }
  }

  /** Nothing of a collection stands at or before its only declaration. */
  lemma NotYet(ss: seq<Stamped>, k: nat, cid: CollectionId, t: Stamped)
    requires ApplyOps(EMPTY, ss).Ok? && k < |ss| && Declares(ss[k], cid)
    requires forall j :: 0 <= j < k ==> !Declares(ss[j], cid)
    requires (t.op.PutDocument? || t.op.CreateIndex?) && t.op.collectionId == cid
    ensures t !in ss[..k + 1]
  {
    hide ApplyOps;
    if t in ss[..k + 1] {
      var j :| 0 <= j <= k && ss[j] == t;
      DeclaredBefore(ss, j);
    }
  }

  /** Replaying a kept operation adds its part of the final state. */
  lemma KeptStep(st: State, ss: seq<Stamped>, k: nat, mv: map<nat, nat>)
    requires WellLogged(st, ss) && KeptIndexesAgree(st, ss) && k < |ss| && Keep(st, ss[k])
    ensures Apply(PartialState(st, ss[..k], mv), ss[k].op, MovedOffset(mv, ss[k].offset)) == Ok(PartialState(st, ss[..k + 1], mv))
  {
    hide ApplyOps, PartialCollection, PutInto, CreateIndexIn, UniqueHolds, NamesConsistent, IdsNeverReused, OffsetsIncrease;
    var s, pre := ss[k], ss[..k];
    var cid := s.op.collectionId;
    var c := st.collections[cid];
    assert ss[..k + 1] == pre + [s];
    assert s in ss;
    match s.op
    case NewCollection(_, name) => KeptNewStep(st, ss, k, mv);
    case PutDocument(_, id, document) =>
      DeclaredBefore(ss, k);
      PutIsCurrent(st, ss, s);
      KeptFrame(st, pre, s, mv, cid);
      KeptPut(c, cid, pre, s, mv);
    case CreateIndex(_, field, kind, unique) =>
      DeclaredBefore(ss, k);
      KeptFrame(st, pre, s, mv, cid);
      assert UniqueHolds(c);
      KeptCreate(c, cid, pre, s, mv);
  }

  lemma PutIsCurrent(st: State, ss: seq<Stamped>, s: Stamped)
    requires WellLogged(st, ss) && s in ss && s.op.PutDocument? && Keep(st, s)
    ensures s == PutStamp(s.op.collectionId, s.op.id, st.collections[s.op.collectionId].documents[s.op.id])
  {
    hide ApplyOps, AllUnique, NamesConsistent, IdsNeverReused, OffsetsIncrease, TracedIndex;
    OpsTraced(ss);
    var cid, id := s.op.collectionId, s.op.id;
    assert TracedCollection(st.collections[cid], cid, ss);
    SameOffsetSameOp(ss, s, PutStamp(cid, id, st.collections[cid].documents[id]));
  }

  lemma KeptNewStep(st: State, ss: seq<Stamped>, k: nat, mv: map<nat, nat>)
    requires WellLogged(st, ss) && k < |ss| && ss[k].op.NewCollection? && Keep(st, ss[k])
    ensures Apply(PartialState(st, ss[..k], mv), ss[k].op, MovedOffset(mv, ss[k].offset)) == Ok(PartialState(st, ss[..k + 1], mv))
  {
    hide WellLogged, PartialCollection;
    LoggedNames(st, ss);
    var s, pre := ss[k], ss[..k];
    var cid, name := s.op.collectionId, s.op.name;
    KeptNew(st, ss, k, mv);
    assert ss[..k + 1] == pre + [s];
    forall c | c in st.collections
      ensures Declared(pre + [s], c) <==> Declared(pre, c) || c == cid
      ensures c != cid ==> PartialCollection(st.collections[c], c, pre + [s], mv) == PartialCollection(st.collections[c], c, pre, mv)
    {
      DeclaredMore(pre, s, c);
      if c != cid {
        PartialUntouched(st.collections[c], c, pre, s, mv);
      }
    }
    var before, after := PartialState(st, pre, mv), PartialState(st, pre + [s], mv);
    assert after.collections == before.collections[cid := Collection(name, map[], map[])];
    assert after.names == before.names[name := cid];
  }

  /** Replaying the kept operations of any prefix gives the part of the state it accounts for. */
  lemma {:induction false} KeptPrefix(st: State, ss: seq<Stamped>, k: nat, mv: map<nat, nat>)
    requires WellLogged(st, ss) && KeptIndexesAgree(st, ss) && k <= |ss|
    ensures ApplyOps(EMPTY, Move(Kept(st, ss[..k]), mv)) == Ok(PartialState(st, ss[..k], mv))
    decreases k
  {
    hide WellLogged, KeptIndexesAgree, Keep, Apply, PartialState;
    if k == 0 {
      NothingYet(st, mv);
      assert Kept(st, ss[..0]) == [];
    } else {
      var pre, s := ss[..k - 1], ss[k - 1];
      KeptPrefix(st, ss, k - 1, mv);
      assert ss[..k][..k - 1] == pre && ss[..k] == pre + [s];
      KeptMore(st, pre, s, mv);
      if Keep(st, s) {
        KeptStep(st, ss, k - 1, mv);
      } else {
        LoggedNames(st, ss);
        DroppedStep(st, pre, s, mv);
      }
    }
  }

  lemma KeptSnoc(st: State, pre: seq<Stamped>, s: Stamped)
    ensures Kept(st, pre + [s]) == Kept(st, pre) + (if Keep(st, s) then [s] else [])
  {
    hide Keep;
    assert (pre + [s])[..|pre + [s]| - 1] == pre;
  }

  /** One more operation: applied after the kept ones if it is kept itself. */
  lemma KeptMore(st: State, pre: seq<Stamped>, s: Stamped, mv: map<nat, nat>)
    requires ApplyOps(EMPTY, Move(Kept(st, pre), mv)).Ok?
    ensures ApplyOps(EMPTY, Move(Kept(st, pre + [s]), mv))
         == if Keep(st, s) then Apply(ApplyOps(EMPTY, Move(Kept(st, pre), mv)).value, s.op, MovedOffset(mv, s.offset))
            else ApplyOps(EMPTY, Move(Kept(st, pre), mv))
  {
    hide Keep, Apply, Kept;
    KeptSnoc(st, pre, s);
    var ks := Kept(st, pre);
    if Keep(st, s) {
      var ms := Move(ks + [s], mv);
      assert ms[..|ms| - 1] == Move(ks, mv);
    } else {
      assert ks + [] == ks;
    }
  }

  lemma NothingYet(st: State, mv: map<nat, nat>)
    ensures PartialState(st, [], mv) == EMPTY
  {
  }

  lemma LoggedNames(st: State, ss: seq<Stamped>)
    requires WellLogged(st, ss)
    ensures NamesConsistent(st)
  {
  }

  /** The whole log accounts for the whole state. */
  lemma PartialIsAll(st: State, ss: seq<Stamped>, mv: map<nat, nat>)
    requires Traced(st, ss) && NamesConsistent(st)
    ensures PartialState(st, ss, mv) == RelocateState(st, mv)
  {
    hide Postings;
    forall cid | cid in st.collections
      ensures Declared(ss, cid) && PartialCollection(st.collections[cid], cid, ss, mv) == Relocate(st.collections[cid], mv)
    {
      assert TracedCollection(st.collections[cid], cid, ss);
      PartialIsWhole(st.collections[cid], cid, ss, mv);
    }
    assert PartialState(st, ss, mv).collections == RelocateState(st, mv).collections;
    assert PartialState(st, ss, mv).names == st.names;
  }

  lemma PartialIsWhole(c: Collection, cid: CollectionId, ss: seq<Stamped>, mv: map<nat, nat>)
    requires TracedCollection(c, cid, ss)
    ensures Declared(ss, cid) && PartialCollection(c, cid, ss, mv) == Relocate(c, mv)
  {
    hide Postings;
    var o :| Stamped(o, NewCollection(cid, c.name)) in ss;
    assert Declares(Stamped(o, NewCollection(cid, c.name)), cid);
    assert PartialDocuments(c, cid, ss, mv) == MoveDocuments(c.documents, mv);
    forall f | f in c.indexes
      ensures Created(ss, cid, f)
    {
      assert TracedIndex(c.indexes[f], cid, f, ss);
      var p :| Stamped(p, CreateIndex(cid, f, c.indexes[f].kind, c.indexes[f].unique)) in ss;
      assert Creates(Stamped(p, CreateIndex(cid, f, c.indexes[f].kind, c.indexes[f].unique)), cid, f);
    }
  }

  /** Compaction preserves meaning: the kept operations alone rebuild the state, at the new offsets. */
  lemma KeptRebuild(st: State, ss: seq<Stamped>, mv: map<nat, nat>)
    requires WellLogged(st, ss) && KeptIndexesAgree(st, ss)
    ensures ApplyOps(EMPTY, Move(Kept(st, ss), mv)) == Ok(RelocateState(st, mv))
  {
    hide KeptIndexesAgree, AllUnique, Kept, Traced;
    KeptPrefix(st, ss, |ss|, mv);
    assert ss[..|ss|] == ss;
    OpsTraced(ss);
    PartialIsAll(st, ss, mv);
  }

  // ---------------------------------------------------------------------------
  // And without agreeing index records, replay throws
  // ---------------------------------------------------------------------------

  predicate HasIndex(st: State, cid: CollectionId, field: Str, kind: IndexKind, unique: bool) {
    && cid in st.collections && field in st.collections[cid].indexes
    && st.collections[cid].indexes[field].kind == kind && st.collections[cid].indexes[field].unique == unique
  }

  lemma IndexStaysStep(st: State, s: Stamped, cid: CollectionId, field: Str, kind: IndexKind, unique: bool)
    requires HasIndex(st, cid, field, kind, unique) && Apply(st, s.op, s.offset).Ok? && AllMirror(st)
    requires s.op.PutDocument? || s.op.CreateIndex? || (s.op.NewCollection? && s.op.collectionId != cid)
    ensures HasIndex(Apply(st, s.op, s.offset).value, cid, field, kind, unique)
    ensures Creates(s, cid, field) ==> s.op.kind == kind && s.op.unique == unique
  {
    hide KeyOf, Mirrors;
    if s.op.CreateIndex? && s.op.collectionId == cid {
      CreateIndexMirrors(st.collections[cid], s.op.field, s.op.kind, s.op.unique);
    }
  }

  /** Once an index exists, kept operations neither drop nor change it. */
  lemma {:induction false} IndexStays(ss: seq<Stamped>, i: nat, j: nat, cid: CollectionId, field: Str)
    requires ApplyOps(EMPTY, ss).Ok? && i <= j < |ss| && Creates(ss[i], cid, field)
    requires forall k :: i <= k <= j ==> ss[k].op.PutDocument? || ss[k].op.CreateIndex? || (ss[k].op.NewCollection? && ss[k].op.collectionId != cid)
    ensures ApplyOps(EMPTY, ss[..j + 1]).Ok?
    ensures HasIndex(ApplyOps(EMPTY, ss[..j + 1]).value, cid, field, ss[i].op.kind, ss[i].op.unique)
    ensures Creates(ss[j], cid, field) ==> ss[j].op.kind == ss[i].op.kind && ss[j].op.unique == ss[i].op.unique
    decreases j - i
  {
    hide Apply, HasIndex, Traced;
    PrefixApplies(EMPTY, ss, j);
    PrefixApplies(EMPTY, ss, j + 1);
    assert ss[..j + 1][..j] == ss[..j] && ss[..j + 1][j] == ss[j];
    OpsTraced(ss[..j]);
    if i == j {
      CreatedHere(ApplyOps(EMPTY, ss[..j]).value, ss[j]);
    } else {
      IndexStays(ss, i, j - 1, cid, field);
      assert ss[..j - 1 + 1] == ss[..j];
      IndexStaysStep(ApplyOps(EMPTY, ss[..j]).value, ss[j], cid, field, ss[i].op.kind, ss[i].op.unique);
    }
  }

  lemma CreatedHere(st: State, s: Stamped)
    requires s.op.CreateIndex? && Apply(st, s.op, s.offset).Ok? && AllMirror(st)
    ensures HasIndex(Apply(st, s.op, s.offset).value, s.op.collectionId, s.op.field, s.op.kind, s.op.unique)
  {
    hide KeyOf, Mirrors;
    CreateIndexMirrors(st.collections[s.op.collectionId], s.op.field, s.op.kind, s.op.unique);
  }

  lemma {:induction false} KeptInOrder(st: State, ss: seq<Stamped>)
    requires IdsNeverReused(ss)
    ensures IdsNeverReused(Kept(st, ss))
    decreases |ss|
  {
    hide Keep;
    if |ss| > 0 {
      var pre, s := ss[..|ss| - 1], ss[|ss| - 1];
      KeptInOrder(st, pre);
      var ks := Kept(st, pre);
      if Keep(st, s) {
        assert Kept(st, ss) == ks + [s];
        forall i, cid | 0 <= i < |ks| && Declares(ks[i], cid)
          ensures !Declares(s, cid)
        {
          assert ks[i] in ks;
          var j :| 0 <= j < |pre| && pre[j] == ks[i];
          assert ss[j] == ks[i];
        }
      } else {
        assert Kept(st, ss) == ks;
      }
    }
  }

  lemma {:induction false} KeptContains(st: State, ss: seq<Stamped>, s: Stamped)
    requires s in ss && Keep(st, s)
    ensures s in Kept(st, ss)
    decreases |ss|
  {
    hide Keep;
    if s != ss[|ss| - 1] {
      KeptContains(st, ss[..|ss| - 1], s);
    }
  }

  /** Two index operations for one field in a log without drops define the same index. */
  lemma SameDefinition(ms: seq<Stamped>, i: nat, j: nat, cid: CollectionId, field: Str)
    requires ApplyOps(EMPTY, ms).Ok? && IdsNeverReused(ms) && i < j < |ms|
    requires forall m :: m in ms ==> m.op.NewCollection? || m.op.PutDocument? || m.op.CreateIndex?
    requires Creates(ms[i], cid, field) && Creates(ms[j], cid, field)
    ensures ms[i].op.kind == ms[j].op.kind && ms[i].op.unique == ms[j].op.unique
  {
    hide ApplyOps;
    DeclaredBefore(ms, i);
    var d :| d in ms[..i] && Declares(d, cid);
    var h :| 0 <= h < i && ms[h] == d;
    forall k | i <= k <= j
      ensures ms[k].op.PutDocument? || ms[k].op.CreateIndex? || (ms[k].op.NewCollection? && ms[k].op.collectionId != cid)
    {
      assert ms[k] in ms && !Declares(ms[k], cid);
    }
    IndexStays(ms, i, j, cid, field);
  }

  lemma MoveInOrder(ss: seq<Stamped>, mv: map<nat, nat>)
    requires IdsNeverReused(ss)
    ensures IdsNeverReused(Move(ss, mv))
  {
    forall i, j, cid | 0 <= i < j < |ss| && Declares(Move(ss, mv)[i], cid)
      ensures !Declares(Move(ss, mv)[j], cid)
    {
      assert Declares(ss[i], cid);
    }
  }

  /** If replaying the kept operations does not throw, the kept index records agree. */
  lemma RebuildNeedsAgreement(st: State, ss: seq<Stamped>, mv: map<nat, nat>)
    requires WellLogged(st, ss) && ApplyOps(EMPTY, Move(Kept(st, ss), mv)).Ok?
    ensures KeptIndexesAgree(st, ss)
  {
    hide ApplyOps, AllUnique, NamesConsistent, OffsetsIncrease, Kept, IdsNeverReused;
    var ks := Kept(st, ss);
    var ms := Move(ks, mv);
    OpsTraced(ss);
    KeptInOrder(st, ss);
    MoveInOrder(ks, mv);
    forall m | m in ms
      ensures m.op.NewCollection? || m.op.PutDocument? || m.op.CreateIndex?
    {
      var i :| 0 <= i < |ms| && ms[i] == m;
      assert ks[i] in ks;
    }
    forall s | s in ss && s.op.CreateIndex? && Keep(st, s)
      ensures var index := st.collections[s.op.collectionId].indexes[s.op.field];
              index.kind == s.op.kind && index.unique == s.op.unique
    {
      var cid, field := s.op.collectionId, s.op.field;
      assert TracedCollection(st.collections[cid], cid, ss) && TracedIndex(st.collections[cid].indexes[field], cid, field, ss);
      var index := st.collections[cid].indexes[field];
      var o :| Stamped(o, CreateIndex(cid, field, index.kind, index.unique)) in ss;
      var t := Stamped(o, CreateIndex(cid, field, index.kind, index.unique));
      KeptContains(st, ss, s);
      KeptContains(st, ss, t);
      var i :| 0 <= i < |ks| && ks[i] == s;
      var j :| 0 <= j < |ks| && ks[j] == t;
      assert Creates(ms[i], cid, field) && Creates(ms[j], cid, field);
      if i < j {
        SameDefinition(ms, i, j, cid, field);
      } else if j < i {
        SameDefinition(ms, j, i, cid, field);
      }
    }
  }

  /**
   Replaying the compacted log throws or rebuilds the state, and which of the two is decided
   by whether the index records it keeps agree with the indexes as they are.
   */
  lemma CompactionExact(st: State, ss: seq<Stamped>, mv: map<nat, nat>)
    requires WellLogged(st, ss)
    ensures ApplyOps(EMPTY, Move(Kept(st, ss), mv)).Ok? <==> KeptIndexesAgree(st, ss)
    ensures KeptIndexesAgree(st, ss) ==> ApplyOps(EMPTY, Move(Kept(st, ss), mv)) == Ok(RelocateState(st, mv))
  {
    hide WellLogged, KeptIndexesAgree, ApplyOps, Kept;
    if KeptIndexesAgree(st, ss) {
      KeptRebuild(st, ss, mv);
    } else if ApplyOps(EMPTY, Move(Kept(st, ss), mv)).Ok? {
      RebuildNeedsAgreement(st, ss, mv);
    }
  }

  lemma EmptyIndexCreated(name: Str, field: Str, kind: IndexKind)
    requires |field| > 0
    ensures CreateIndexIn(Collection(name, map[], map[]), field, kind, false)
         == Ok(Collection(name, map[], map[field := Index(kind, false, map[])]))
  {
    var c := Collection(name, map[], map[]);
    assert Postings(kind, field, c.documents) == map[];
    CreateIndexMirrors(c, field, kind, false) by {
      assert Mirrors(c);
    }
  }

  // ---------------------------------------------------------------------------
  // Nothing is kept that could be left out
  // ---------------------------------------------------------------------------

  /** Without a kept document or collection, no other operations of the log, in whatever order, rebuild the state. */
  lemma KeptNeeded(st: State, ss: seq<Stamped>, k: nat, others: seq<Stamped>)
    requires WellLogged(st, ss) && k < |ss| && Keep(st, ss[k]) && !ss[k].op.CreateIndex?
    requires forall s :: s in others ==> s in ss && s != ss[k]
    ensures ApplyOps(EMPTY, others) != Ok(st)
  {
    hide ApplyOps, AllUnique, NamesConsistent, TracedIndex;
    if ApplyOps(EMPTY, others) == Ok(st) {
      OpsTraced(others);
      var cid := ss[k].op.collectionId;
      assert TracedCollection(st.collections[cid], cid, others);
      if ss[k].op.PutDocument? {
        var t := PutStamp(cid, ss[k].op.id, st.collections[cid].documents[ss[k].op.id]);
        assert t in others && t.offset == ss[k].offset;
        SameOffsetSameOp(ss, ss[k], t);
      } else {
        var o :| Stamped(o, NewCollection(cid, st.collections[cid].name)) in others;
        DeclaredOnce(ss, k, Stamped(o, NewCollection(cid, st.collections[cid].name)));
      }
      assert false;
    }
  }

  lemma DeclaredOnce(ss: seq<Stamped>, k: nat, t: Stamped)
    requires IdsNeverReused(ss) && k < |ss| && t in ss && ss[k].op.NewCollection? && Declares(t, ss[k].op.collectionId)
    ensures t == ss[k]
  {
    var i :| 0 <= i < |ss| && ss[i] == t;
    assert Declares(ss[k], ss[k].op.collectionId);
  }
}
