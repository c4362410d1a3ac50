/**
 Replaying the end of a log over the kept operations of a longer front of it. The end begins where the
 memory was another one; what it finds instead is the final memory, as far as the front accounts
 for it. Stated on stamped operations, in log order, without transaction markers.
 */
module Resumption {
  import opened Bytes
  import opened Documents
  import opened Payloads
  import opened Operations
  import opened DatabaseState
  import opened UniqueConstraint
  import opened Compaction

  // ---------------------------------------------------------------------------
  // What happens to a state later in the log
  // ---------------------------------------------------------------------------

  function StateAt(ss: seq<Stamped>, m: nat): State
    requires m <= |ss| && ApplyOps(EMPTY, ss[..m]).Ok?
  {
    ApplyOps(EMPTY, ss[..m]).value
  }

  lemma NextState(ss: seq<Stamped>, m: nat)
    requires m < |ss| && ApplyOps(EMPTY, ss).Ok?
    ensures ApplyOps(EMPTY, ss[..m]).Ok? && ApplyOps(EMPTY, ss[..m + 1]).Ok?
    ensures Apply(StateAt(ss, m), ss[m].op, ss[m].offset) == Ok(StateAt(ss, m + 1))
    ensures Traced(StateAt(ss, m), ss[..m]) && AllMirror(StateAt(ss, m)) && AllMirror(StateAt(ss, m + 1))
  {
    hide Apply, Traced, AllMirror;
    PrefixApplies(EMPTY, ss, m);
    PrefixApplies(EMPTY, ss, m + 1);
    assert ss[..m + 1][..m] == ss[..m];
    OpsTraced(ss[..m]);
    OpsTraced(ss[..m + 1]);
  }

  ghost predicate Touches(s: Stamped, cid: CollectionId, id: Str) {
    (s.op.PutDocument? || s.op.DeleteDocument?) && s.op.collectionId == cid && s.op.id == id
  }

  ghost predicate Touched(suf: seq<Stamped>, cid: CollectionId, id: Str) {
    exists s :: s in suf && Touches(s, cid, id)
  }

  lemma TouchedMore(suf: seq<Stamped>, s: Stamped, cid: CollectionId, id: Str)
    ensures Touched(suf + [s], cid, id) <==> Touched(suf, cid, id) || Touches(s, cid, id)
  {
    if Touched(suf, cid, id) {
      var t :| t in suf && Touches(t, cid, id);
      assert t in suf + [s];
    }
    if Touches(s, cid, id) {
      assert s in suf + [s];
    }
  }

  lemma TouchedAll(suf: seq<Stamped>, s: Stamped, cid: CollectionId)
    ensures forall id :: Touched(suf + [s], cid, id) <==> Touched(suf, cid, id) || Touches(s, cid, id)
  {
    hide Touched, Touches;
    forall id
      ensures Touched(suf + [s], cid, id) <==> Touched(suf, cid, id) || Touches(s, cid, id)
    {
      TouchedMore(suf, s, cid, id);
    }
  }

  lemma CreatedAll(suf: seq<Stamped>, s: Stamped, cid: CollectionId)
    ensures forall f :: Created(suf + [s], cid, f) <==> Created(suf, cid, f) || Creates(s, cid, f)
  {
    hide Created, Creates;
    forall f
      ensures Created(suf + [s], cid, f) <==> Created(suf, cid, f) || Creates(s, cid, f)
    {
      CreatedMore(suf, s, cid, f);
    }
  }

  predicate Drops(s: Stamped, cid: CollectionId) {
    s.op.DropCollection? && s.op.collectionId == cid
  }

  predicate DropsIndex(s: Stamped, cid: CollectionId) {
    s.op.DropIndex? && s.op.collectionId == cid
  }

  predicate Has(st: State, cid: CollectionId, id: Str) {
    cid in st.collections && id in st.collections[cid].documents
  }

  /** One step: a document under an old offset was there before, and the step does not concern it. */
  lemma OldEntryStep(st: State, s: Stamped, cid: CollectionId, id: Str, bound: nat)
    requires Apply(st, s.op, s.offset).Ok? && s.offset >= bound
    requires Has(Apply(st, s.op, s.offset).value, cid, id) && Apply(st, s.op, s.offset).value.collections[cid].documents[id].offset < bound
    ensures Has(st, cid, id) && st.collections[cid].documents[id] == Apply(st, s.op, s.offset).value.collections[cid].documents[id]
    ensures !Declares(s, cid) && !Touches(s, cid, id)
  {
    hide PutInto, RemoveFrom, CreateIndexIn, DropIndexIn;
    if cid in st.collections {
      DocumentsAre(st.collections[cid], s);
    }
  }

  /** What an operation makes of the documents of its collection. */
  lemma DocumentsAre(c: Collection, s: Stamped)
    ensures s.op.PutDocument? ==> PutInto(c, s.op.id, Entry(s.offset, s.op.document)).documents == c.documents[s.op.id := Entry(s.offset, s.op.document)]
    ensures s.op.DeleteDocument? ==> RemoveFrom(c, s.op.id).documents == c.documents - {s.op.id}
    ensures s.op.CreateIndex? ==>
              var d := CreateIndexIn(c, s.op.field, s.op.kind, s.op.unique); d.Ok? ==> d.value.documents == c.documents
    ensures s.op.DropIndex? ==> var d := DropIndexIn(c, s.op.field); d.Ok? ==> d.value.documents == c.documents
  {
    hide UpdatePosting, RemovePosting, Refile, HasDuplicate;
  }

  /** A document whose record stands before a place in the log was there then, and has not been touched since. */
  lemma {:induction false} OldEntry(ss: seq<Stamped>, m: nat, e: nat, cid: CollectionId, id: Str, bound: nat)
    requires m <= e <= |ss| && ApplyOps(EMPTY, ss).Ok? && forall i :: m <= i < |ss| ==> ss[i].offset >= bound
    requires ApplyOps(EMPTY, ss[..m]).Ok? && ApplyOps(EMPTY, ss[..e]).Ok?
    requires Has(StateAt(ss, e), cid, id) && StateAt(ss, e).collections[cid].documents[id].offset < bound
    ensures Has(StateAt(ss, m), cid, id) && StateAt(ss, m).collections[cid].documents[id] == StateAt(ss, e).collections[cid].documents[id]
    ensures !Declared(ss[m..e], cid) && !Touched(ss[m..e], cid, id)
    decreases e - m
  {
    hide Apply, Traced, AllMirror, StateAt, Declares, Touches;
    if m < e {
      NextState(ss, e - 1);
      OldEntryStep(StateAt(ss, e - 1), ss[e - 1], cid, id, bound);
      OldEntry(ss, m, e - 1, cid, id, bound);
      assert ss[m..e] == ss[m..e - 1] + [ss[e - 1]];
      DeclaredMore(ss[m..e - 1], ss[e - 1], cid);
      TouchedMore(ss[m..e - 1], ss[e - 1], cid, id);
    }
  }

  predicate SameDefinition(c: Collection, d: Collection, f: Str) {
    f in c.indexes && f in d.indexes && c.indexes[f].kind == d.indexes[f].kind && c.indexes[f].unique == d.indexes[f].unique
  }

  lemma CollectionStaysStep(st: State, s: Stamped, cid: CollectionId)
    requires Apply(st, s.op, s.offset).Ok? && AllMirror(st) && !Declares(s, cid) && !Drops(s, cid)
    ensures var next := Apply(st, s.op, s.offset).value;
            && (cid in next.collections <==> cid in st.collections)
            && (cid in st.collections ==> next.collections[cid].name == st.collections[cid].name)
            && (cid in st.collections && !DropsIndex(s, cid) ==>
                  forall f :: f in st.collections[cid].indexes ==> SameDefinition(st.collections[cid], next.collections[cid], f))
  {
    hide Mirrors, CreateIndexIn, PutInto, RemoveFrom, DropIndexIn, SameDefinition;
    if cid in st.collections {
      NameAndIndexesAre(st.collections[cid], s);
    }
  }

  predicate Keeps(c: Collection, d: Collection) {
    d.name == c.name && forall f :: f in c.indexes ==> SameDefinition(c, d, f)
  }

  /** What an operation makes of the name of its collection, and that only dropping an index changes definitions. */
  lemma NameAndIndexesAre(c: Collection, s: Stamped)
    requires Mirrors(c)
    ensures Keeps(c, c)
    ensures s.op.PutDocument? ==> Keeps(c, PutInto(c, s.op.id, Entry(s.offset, s.op.document)))
    ensures s.op.DeleteDocument? ==> Keeps(c, RemoveFrom(c, s.op.id))
    ensures s.op.CreateIndex? ==> var d := CreateIndexIn(c, s.op.field, s.op.kind, s.op.unique); d.Ok? ==> Keeps(c, d.value)
    ensures s.op.DropIndex? ==> var d := DropIndexIn(c, s.op.field); d.Ok? ==> d.value.name == c.name
  {
    hide Mirrors, CreateIndexIn, KeyOf;
    if s.op.CreateIndex? && CreateIndexIn(c, s.op.field, s.op.kind, s.op.unique).Ok? {
      CreateKeeps(c, s.op.field, s.op.kind, s.op.unique);
    }
  }

  lemma CreateKeeps(c: Collection, field: Str, kind: IndexKind, unique: bool)
    requires Mirrors(c) && CreateIndexIn(c, field, kind, unique).Ok?
    ensures var d := CreateIndexIn(c, field, kind, unique).value;
            d.name == c.name && forall f :: f in c.indexes ==> SameDefinition(c, d, f)
  {
    hide Mirrors, RefileAll, HasDuplicate, Postings;
    CreateIndexMirrors(c, field, kind, unique);
  }

  /** Neither declared nor dropped in between: there before and after, with its name, and with its indexes if none is dropped. */
  lemma {:induction false} CollectionStays(ss: seq<Stamped>, m: nat, e: nat, cid: CollectionId)
    requires m <= e <= |ss| && ApplyOps(EMPTY, ss).Ok? && ApplyOps(EMPTY, ss[..m]).Ok? && ApplyOps(EMPTY, ss[..e]).Ok?
    requires forall i :: m <= i < e ==> !Declares(ss[i], cid) && !Drops(ss[i], cid)
    ensures cid in StateAt(ss, e).collections <==> cid in StateAt(ss, m).collections
    ensures cid in StateAt(ss, m).collections ==> StateAt(ss, e).collections[cid].name == StateAt(ss, m).collections[cid].name
    ensures cid in StateAt(ss, m).collections && (forall i :: m <= i < e ==> !DropsIndex(ss[i], cid)) ==>
              forall f :: f in StateAt(ss, m).collections[cid].indexes ==> SameDefinition(StateAt(ss, m).collections[cid], StateAt(ss, e).collections[cid], f)
    decreases e - m
  {
    hide Apply, Traced, AllMirror, StateAt, Declares, Drops, DropsIndex;
    if m < e {
      NextState(ss, e - 1);
      CollectionStaysStep(StateAt(ss, e - 1), ss[e - 1], cid);
      CollectionStays(ss, m, e - 1, cid);
    }
  }

  /** Every name belongs to a collection of that name. */
  predicate NamesPoint(st: State) {
    forall n :: n in st.names ==> st.names[n] in st.collections && st.collections[st.names[n]].name == n
  }

  lemma NamesPointStep(st: State, s: Stamped)
    requires NamesPoint(st) && Apply(st, s.op, s.offset).Ok? && AllMirror(st) && (s.op.NewCollection? ==> s.op.collectionId !in st.collections)
    ensures NamesPoint(Apply(st, s.op, s.offset).value)
  {
    hide UpdatePosting, RemovePosting, Mirrors, CreateIndexIn;
    if s.op.CreateIndex? {
      CreateIndexMirrors(st.collections[s.op.collectionId], s.op.field, s.op.kind, s.op.unique);
    }
  }

  lemma {:induction false} NamesPointAt(ss: seq<Stamped>, m: nat)
    requires m <= |ss| && ApplyOps(EMPTY, ss).Ok? && IdsNeverReused(ss) && ApplyOps(EMPTY, ss[..m]).Ok?
    ensures NamesPoint(StateAt(ss, m))
    decreases m
  {
    hide Apply, AllMirror, NamesPoint, TracedCollection, ApplyOps;
    if m == 0 {
      NothingPoints();
      assert ss[..0] == [];
    } else {
      NextState(ss, m - 1);
      NamesPointAt(ss, m - 1);
      if ss[m - 1].op.NewCollection? && ss[m - 1].op.collectionId in StateAt(ss, m - 1).collections {
        InDeclared(ss, m - 1, ss[m - 1].op.collectionId);
        NotAgain(ss, m - 1, ss[m - 1].op.collectionId);
      }
      NamesPointStep(StateAt(ss, m - 1), ss[m - 1]);
    }
  }

  lemma NothingPoints()
    ensures ApplyOps(EMPTY, []) == Ok(EMPTY) && NamesPoint(EMPTY)
  {
  }

  lemma InDeclared(ss: seq<Stamped>, m: nat, cid: CollectionId)
    requires m <= |ss| && ApplyOps(EMPTY, ss[..m]).Ok? && cid in StateAt(ss, m).collections
    ensures Declared(ss[..m], cid)
  {
    hide ApplyOps, TracedIndex;
    OpsTraced(ss[..m]);
    assert TracedCollection(StateAt(ss, m).collections[cid], cid, ss[..m]);
    var o :| Stamped(o, NewCollection(cid, StateAt(ss, m).collections[cid].name)) in ss[..m];
    assert Declares(Stamped(o, NewCollection(cid, StateAt(ss, m).collections[cid].name)), cid);
  }

  lemma NotAgain(ss: seq<Stamped>, m: nat, cid: CollectionId)
    requires m <= |ss| && IdsNeverReused(ss) && Declared(ss[..m], cid)
    ensures forall i :: m <= i < |ss| ==> !Declares(ss[i], cid)
  {
    var d :| d in ss[..m] && Declares(d, cid);
    var h :| 0 <= h < m && ss[h] == d;
  }

  // ---------------------------------------------------------------------------
  // Two states side by side: the one the end of the log was written over, and the one it is read over
  // ---------------------------------------------------------------------------

  /** The final memory; the front behind which the end begins; the longer front whose kept operations are there. */
  datatype Cut = Cut(st: State, front: seq<Stamped>, copied: seq<Stamped>, mv: map<nat, nat>)

  predicate SameAt(a: map<Str, Entry>, b: map<Str, Entry>, id: Str) {
    (id in a <==> id in b) && (id in a ==> a[id] == b[id])
  }

  /** Documents the end has touched are as they were then; the others are as they are in the end. */
  ghost predicate OverlayDocuments(c: Cut, suf: seq<Stamped>, cid: CollectionId, d: map<Str, Entry>, t: map<Str, Entry>)
    requires cid in c.st.collections
  {
    forall id :: SameAt(t, if Touched(suf, cid, id) then d else PartialDocuments(c.st.collections[cid], cid, c.copied, c.mv), id)
  }

  /** The end so far has created the index and not dropped it since, or has done neither and the kept operations create it. */
  ghost predicate There(c: Cut, suf: seq<Stamped>, cid: CollectionId, f: Str) {
    if |suf| == 0 then cid in c.st.collections && f in c.st.collections[cid].indexes && Created(c.copied, cid, f)
    else
      var s := suf[|suf| - 1];
      Creates(s, cid, f) || (s.op != DropIndex(cid, f) && There(c, suf[..|suf| - 1], cid, f))
  }

  lemma ThereAll(c: Cut, suf: seq<Stamped>, s: Stamped, cid: CollectionId)
    ensures forall f :: There(c, suf + [s], cid, f) <==> Creates(s, cid, f) || (s.op != DropIndex(cid, f) && There(c, suf, cid, f))
  {
    hide Creates, Created;
    assert (suf + [s])[..|suf|] == suf;
  }

  /** A final index has its final definition and is there when it was; another one is there only when it was, and once the end has created it. */
  ghost predicate OverlayIndexes(c: Cut, suf: seq<Stamped>, cid: CollectionId, d: Collection, t: Collection)
    requires cid in c.st.collections
  {
    var e := c.st.collections[cid];
    && (forall f :: f in t.indexes <==> There(c, suf, cid, f))
    && (forall f :: f in t.indexes ==> if f in e.indexes then SameDefinition(t, e, f) else SameDefinition(t, d, f))
    && (forall f :: f in d.indexes && (f in e.indexes || Created(suf, cid, f)) ==> f in t.indexes)
  }

  ghost predicate Overlay(c: Cut, suf: seq<Stamped>, cid: CollectionId, d: Collection, t: Collection) {
    && cid in c.st.collections && t.name == d.name
    && OverlayDocuments(c, suf, cid, d.documents, t.documents) && OverlayIndexes(c, suf, cid, d, t)
  }

  ghost predicate SimCollection(c: Cut, suf: seq<Stamped>, d: State, t: State, cid: CollectionId) {
    && (Declared(c.front, cid) || Declared(suf, cid) ==> (cid in d.collections <==> cid in t.collections))
    && (cid in d.collections && cid in t.collections ==>
          if Declared(c.front, cid) then Overlay(c, suf, cid, d.collections[cid], t.collections[cid])
          else t.collections[cid] == d.collections[cid])
  }

  ghost predicate SimNames(c: Cut, d: State, t: State) {
    && (forall n :: n in d.names ==> n in t.names && t.names[n] == d.names[n])
    && (forall n :: n in t.names ==> n in d.names || n in c.st.names)
  }

  ghost predicate Sim(c: Cut, suf: seq<Stamped>, d: State, t: State) {
    && AllMirror(d) && AllMirror(t) && SimNames(c, d, t)
    && (forall cid :: SimCollection(c, suf, d, t, cid))
    && (forall cid :: cid in d.collections ==> Declared(c.front, cid) || Declared(suf, cid))
    && (forall cid :: cid in t.collections ==> Declared(c.copied, cid) || Declared(suf, cid))
  }

  // ---------------------------------------------------------------------------
  // One operation on a collection declared before
  // ---------------------------------------------------------------------------

  /** A step that neither creates nor drops an index of the collection. */
  lemma IndexesStay(c: Cut, suf: seq<Stamped>, s: Stamped, cid: CollectionId, d: Collection, t: Collection, e: Collection, u: Collection)
    requires cid in c.st.collections && OverlayIndexes(c, suf, cid, d, t) && SameDefinitions(d, e) && SameDefinitions(t, u)
    requires (s.op.CreateIndex? || s.op.DropIndex?) ==> s.op.collectionId != cid
    ensures OverlayIndexes(c, suf + [s], cid, e, u)
  {
    hide Created, There;
    ThereAll(c, suf, s, cid);
    CreatedAll(suf, s, cid);
  }

  lemma OverlayPut(c: Cut, suf: seq<Stamped>, s: Stamped, d: Collection, t: Collection)
    requires s.op.PutDocument? && Overlay(c, suf, s.op.collectionId, d, t)
    ensures var e := Entry(s.offset, s.op.document);
            Overlay(c, suf + [s], s.op.collectionId, PutInto(d, s.op.id, e), PutInto(t, s.op.id, e))
  {
    hide UpdatePosting, PartialDocuments, Touched, OverlayIndexes;
    var cid, e := s.op.collectionId, Entry(s.offset, s.op.document);
    PutKeepsDefinitions(d, s.op.id, e);
    PutKeepsDefinitions(t, s.op.id, e);
    TouchedAll(suf, s, cid);
    IndexesStay(c, suf, s, cid, d, t, PutInto(d, s.op.id, e), PutInto(t, s.op.id, e));
  }

  lemma OverlayDelete(c: Cut, suf: seq<Stamped>, s: Stamped, d: Collection, t: Collection)
    requires s.op.DeleteDocument? && Overlay(c, suf, s.op.collectionId, d, t)
    ensures Overlay(c, suf + [s], s.op.collectionId, RemoveFrom(d, s.op.id), RemoveFrom(t, s.op.id))
  {
    hide PartialDocuments, Touched, OverlayIndexes;
    var cid := s.op.collectionId;
    TouchedAll(suf, s, cid);
    IndexesStay(c, suf, s, cid, d, t, RemoveFrom(d, s.op.id), RemoveFrom(t, s.op.id));
  }

  /** Documents that are all in `d`, but for their offsets, collide only if those of `d` do. */
  lemma FewerDuplicates(kind: IndexKind, field: Str, unique: bool, d: map<Str, Entry>, t: map<Str, Entry>)
    requires forall id :: id in t ==> id in d && t[id].document == d[id].document
    requires !HasDuplicate(Index(kind, unique, Postings(kind, field, d)))
    ensures !HasDuplicate(Index(kind, unique, Postings(kind, field, t)))
  {
    hide KeyOf;
    var ps, qs := Postings(kind, field, d), Postings(kind, field, t);
    assert forall i :: i in qs ==> i in ps && ps[i].key == qs[i].key;
  }

  lemma NewIndexNoDuplicate(d: Collection, field: Str, kind: IndexKind, unique: bool)
    requires Mirrors(d) && field !in d.indexes && CreateIndexIn(d, field, kind, unique).Ok?
    ensures |field| > 0 && (unique ==> !HasDuplicate(Index(kind, unique, Postings(kind, field, d.documents))))
  {
    hide Mirrors, RefileAll, HasDuplicate, Postings;
    NewIndexMirrors(d, field, kind, unique);
  }

  /** An index that is there, or whose documents there do not collide, is created just as well. */
  lemma OverlayCreate(c: Cut, suf: seq<Stamped>, s: Stamped, d: Collection, t: Collection)
    requires s.op.CreateIndex? && Overlay(c, suf, s.op.collectionId, d, t) && Mirrors(d) && Mirrors(t)
    requires CreateIndexIn(d, s.op.field, s.op.kind, s.op.unique).Ok?
    requires var e := c.st.collections[s.op.collectionId];
             s.op.field in e.indexes ==> e.indexes[s.op.field].kind == s.op.kind && e.indexes[s.op.field].unique == s.op.unique
    ensures CreateIndexIn(t, s.op.field, s.op.kind, s.op.unique).Ok? <==>
              (s.op.field !in t.indexes && s.op.unique ==> !HasDuplicate(Index(s.op.kind, s.op.unique, Postings(s.op.kind, s.op.field, t.documents))))
    ensures CreateIndexIn(t, s.op.field, s.op.kind, s.op.unique).Ok? ==>
              Overlay(c, suf + [s], s.op.collectionId, CreateIndexIn(d, s.op.field, s.op.kind, s.op.unique).value, CreateIndexIn(t, s.op.field, s.op.kind, s.op.unique).value)
  {
    hide PartialDocuments, Touched, Created, There, Postings, Mirrors, HasDuplicate, CreateIndexIn;
    var cid, field, kind, unique := s.op.collectionId, s.op.field, s.op.kind, s.op.unique;
    FieldNamed(d, field, kind, unique);
    SameAsThere(d, field, kind, unique);
    NewIndexExactly(t, field, kind, unique);
    if CreateIndexIn(t, field, kind, unique).Ok? {
      hide OverlayIndexes;
      CreateIndexMirrors(d, field, kind, unique);
      CreateIndexMirrors(t, field, kind, unique);
      TouchedAll(suf, s, cid);
      IndexesCreated(c, suf, s, d, t, CreateIndexIn(d, field, kind, unique).value, CreateIndexIn(t, field, kind, unique).value);
    }
  }

  predicate WithIndex(c: Collection, d: Collection, field: Str, kind: IndexKind, unique: bool) {
    && d.indexes.Keys == c.indexes.Keys + {field} && d.indexes[field].kind == kind && d.indexes[field].unique == unique
    && forall f :: f in c.indexes && f != field ==> d.indexes[f] == c.indexes[f]
  }

  lemma IndexesCreated(c: Cut, suf: seq<Stamped>, s: Stamped, d: Collection, t: Collection, e: Collection, u: Collection)
    requires s.op.CreateIndex? && s.op.collectionId in c.st.collections && OverlayIndexes(c, suf, s.op.collectionId, d, t)
    requires WithIndex(d, e, s.op.field, s.op.kind, s.op.unique) && WithIndex(t, u, s.op.field, s.op.kind, s.op.unique)
    requires var i := c.st.collections[s.op.collectionId].indexes;
             s.op.field in i ==> i[s.op.field].kind == s.op.kind && i[s.op.field].unique == s.op.unique
    ensures OverlayIndexes(c, suf + [s], s.op.collectionId, e, u)
  {
    hide Created, There;
    CreatedAll(suf, s, s.op.collectionId);
    ThereAll(c, suf, s, s.op.collectionId);
  }

  lemma SameAsThere(d: Collection, field: Str, kind: IndexKind, unique: bool)
    requires CreateIndexIn(d, field, kind, unique).Ok?
    ensures field in d.indexes ==> d.indexes[field].kind == kind && d.indexes[field].unique == unique
  {
    hide RefileAll;
  }

  lemma NewIndexExactly(t: Collection, field: Str, kind: IndexKind, unique: bool)
    requires Mirrors(t) && |field| > 0
    requires field in t.indexes ==> t.indexes[field].kind == kind && t.indexes[field].unique == unique
    ensures CreateIndexIn(t, field, kind, unique).Ok? <==>
              (field !in t.indexes && unique ==> !HasDuplicate(Index(kind, unique, Postings(kind, field, t.documents))))
  {
    hide Mirrors, RefileAll, HasDuplicate, Postings;
    if field !in t.indexes {
      NewIndexMirrors(t, field, kind, unique);
    }
  }

  /** A final index can be dropped; another one if the end has created it. */
  lemma OverlayDropIndex(c: Cut, suf: seq<Stamped>, s: Stamped, d: Collection, t: Collection)
    requires s.op.DropIndex? && Overlay(c, suf, s.op.collectionId, d, t) && s.op.field in d.indexes
    ensures s.op.field in t.indexes <==> s.op.field in c.st.collections[s.op.collectionId].indexes || Created(suf, s.op.collectionId, s.op.field)
    ensures s.op.field in t.indexes ==>
              Overlay(c, suf + [s], s.op.collectionId, DropIndexIn(d, s.op.field).value, DropIndexIn(t, s.op.field).value)
  {
    hide PartialDocuments, Touched, Created, Creates, There;
    var cid := s.op.collectionId;
    if There(c, suf, cid, s.op.field) {
      ThereCreated(c, suf, cid, s.op.field);
    }
    NotCreates(s, cid);
    TouchedAll(suf, s, cid);
    CreatedAll(suf, s, cid);
    ThereAll(c, suf, s, cid);
  }

  lemma NotCreates(s: Stamped, cid: CollectionId)
    requires s.op.DropIndex?
    ensures forall f :: !Creates(s, cid, f)
  {
  }

  /** Nothing is there without having been created. */
  lemma {:induction false} ThereCreated(c: Cut, suf: seq<Stamped>, cid: CollectionId, f: Str)
    requires There(c, suf, cid, f)
    ensures Created(suf, cid, f) || (cid in c.st.collections && f in c.st.collections[cid].indexes && Created(c.copied, cid, f))
    decreases |suf|
  {
    hide Created, Creates;
    if |suf| > 0 {
      var n := |suf| - 1;
      assert suf == suf[..n] + [suf[n]];
      CreatedMore(suf[..n], suf[n], cid, f);
      if !Creates(suf[n], cid, f) {
        ThereCreated(c, suf[..n], cid, f);
      }
    }
  }

  lemma FieldNamed(c: Collection, field: Str, kind: IndexKind, unique: bool)
    requires CreateIndexIn(c, field, kind, unique).Ok?
    ensures |field| > 0
  {
    hide RefileAll;
  }

  // ---------------------------------------------------------------------------
  // One operation on the database
  // ---------------------------------------------------------------------------

  /** A collection an operation does not concern stays as it was in both. */
  lemma OtherCollection(c: Cut, suf: seq<Stamped>, s: Stamped, d: State, t: State, e: State, u: State, cid: CollectionId)
    requires SimCollection(c, suf, d, t, cid) && !Declares(s, cid)
    requires (s.op.PutDocument? || s.op.DeleteDocument? || s.op.CreateIndex? || s.op.DropIndex?) ==> s.op.collectionId != cid
    requires (cid in e.collections <==> cid in d.collections) && (cid in u.collections <==> cid in t.collections)
    requires cid in d.collections ==> e.collections[cid] == d.collections[cid]
    requires cid in t.collections ==> u.collections[cid] == t.collections[cid]
    ensures SimCollection(c, suf + [s], e, u, cid)
  {
    hide PartialDocuments, Touched, Declared, OverlayIndexes;
    DeclaredMore(suf, s, cid);
    TouchedAll(suf, s, cid);
    if cid in d.collections && cid in t.collections && Declared(c.front, cid) {
      IndexesStay(c, suf, s, cid, d.collections[cid], t.collections[cid], d.collections[cid], t.collections[cid]);
    }
  }

  /** An operation on a collection that both have, which neither declares nor drops it. */
  lemma SimChange(c: Cut, suf: seq<Stamped>, s: Stamped, d: State, t: State, dc: Collection, tc: Collection)
    requires (s.op.PutDocument? || s.op.DeleteDocument? || s.op.CreateIndex? || s.op.DropIndex?) && Sim(c, suf, d, t)
    requires s.op.collectionId in d.collections && s.op.collectionId in t.collections && Mirrors(dc) && Mirrors(tc)
    requires if Declared(c.front, s.op.collectionId) then Overlay(c, suf + [s], s.op.collectionId, dc, tc) else dc == tc
    ensures Sim(c, suf + [s], WithCollection(d, s.op.collectionId, dc), WithCollection(t, s.op.collectionId, tc))
  {
    hide Overlay, Declared, Declares, Mirrors;
    var cid := s.op.collectionId;
    var e, u := WithCollection(d, cid, dc), WithCollection(t, cid, tc);
    forall x
      ensures SimCollection(c, suf + [s], e, u, x)
      ensures Declared(suf, x) ==> Declared(suf + [s], x)
    {
      DeclaredMore(suf, s, x);
      assert SimCollection(c, suf, d, t, x);
      if x != cid {
        NotDeclares(s, x);
        OtherCollection(c, suf, s, d, t, e, u, x);
      }
    }
  }

  lemma NotDeclares(s: Stamped, cid: CollectionId)
    ensures !s.op.NewCollection? || s.op.collectionId != cid ==> !Declares(s, cid)
  {
  }

  lemma SimHole(c: Cut, suf: seq<Stamped>, s: Stamped, d: State, t: State)
    requires s.op.Hole? && Sim(c, suf, d, t)
    ensures Sim(c, suf + [s], d, t)
  {
    hide SimCollection, Declared, Declares, Mirrors, SimNames;
    forall x
      ensures SimCollection(c, suf + [s], d, t, x)
      ensures Declared(suf, x) ==> Declared(suf + [s], x)
    {
      DeclaredMore(suf, s, x);
      NotDeclares(s, x);
      assert SimCollection(c, suf, d, t, x);
      OtherCollection(c, suf, s, d, t, d, t, x);
    }
  }

  lemma NewDeclares(s: Stamped)
    ensures s.op.NewCollection? ==> Declares(s, s.op.collectionId)
  {
  }

  function Declaring(st: State, cid: CollectionId, name: Str): State {
    State(st.collections[cid := Collection(name, map[], map[])], st.names[name := cid])
  }

  lemma SimNew(c: Cut, suf: seq<Stamped>, s: Stamped, d: State, t: State)
    requires s.op.NewCollection? && Sim(c, suf, d, t) && !Declared(c.front, s.op.collectionId)
    ensures Sim(c, suf + [s], Declaring(d, s.op.collectionId, s.op.name), Declaring(t, s.op.collectionId, s.op.name))
  {
    hide Overlay, Declared, Declares, Mirrors;
    var cid, name := s.op.collectionId, s.op.name;
    var e, u := Declaring(d, cid, name), Declaring(t, cid, name);
    EmptyMirrors(name);
    forall x
      ensures SimCollection(c, suf + [s], e, u, x)
      ensures Declared(suf, x) || x == cid ==> Declared(suf + [s], x)
    {
      DeclaredMore(suf, s, x);
      assert SimCollection(c, suf, d, t, x);
      NotDeclares(s, x);
      NewDeclares(s);
      if x != cid {
        OtherCollection(c, suf, s, d, t, e, u, x);
      }
    }
  }

  function Without(st: State, cid: CollectionId): State
    requires cid in st.collections
  {
    State(st.collections - {cid}, st.names - {st.collections[cid].name})
  }

  lemma SimDrop(c: Cut, suf: seq<Stamped>, s: Stamped, d: State, t: State)
    requires s.op.DropCollection? && Sim(c, suf, d, t) && !Declared(c.front, s.op.collectionId)
    requires s.op.collectionId in d.collections && s.op.collectionId in t.collections
    ensures Sim(c, suf + [s], Without(d, s.op.collectionId), Without(t, s.op.collectionId))
  {
    hide Overlay, Declared, Declares, Mirrors;
    var cid := s.op.collectionId;
    var e, u := Without(d, cid), Without(t, cid);
    assert SimCollection(c, suf, d, t, cid);
    forall x
      ensures SimCollection(c, suf + [s], e, u, x)
      ensures Declared(suf, x) ==> Declared(suf + [s], x)
    {
      DeclaredMore(suf, s, x);
      assert SimCollection(c, suf, d, t, x);
      NotDeclares(s, x);
      if x != cid {
        OtherCollection(c, suf, s, d, t, e, u, x);
      }
    }
  }

  // ---------------------------------------------------------------------------
  // The whole end of the log
  // ---------------------------------------------------------------------------

  /** From `j` on no collection is dropped that was declared before. */
  ghost predicate KeepsOlder(ss: seq<Stamped>, j: nat)
    requires j <= |ss|
  {
    forall i :: j <= i < |ss| && ss[i].op.DropCollection? ==> !Declared(ss[..j], ss[i].op.collectionId)
  }

  /** The end begins at `j`; the kept operations are those of the first `k`. */
  ghost predicate Setting(c: Cut, ss: seq<Stamped>, j: nat, k: nat) {
    && WellLogged(c.st, ss) && KeptIndexesAgree(c.st, ss)
    && j <= k <= |ss| && c.front == ss[..j] && c.copied == ss[..k] && KeepsOlder(ss, j)
  }

  predicate NoIndex(st: State, cid: CollectionId, f: Str) {
    cid in st.collections ==> f !in st.collections[cid].indexes
  }

  /** The end drops an index of an older collection that the final memory lacks, and has not created it before. */
  ghost predicate Missing(c: Cut, suf: seq<Stamped>, s: Stamped) {
    && s.op.DropIndex? && Declared(c.front, s.op.collectionId)
    && NoIndex(c.st, s.op.collectionId, s.op.field) && !Created(suf, s.op.collectionId, s.op.field)
  }

  /** The documents the end has touched as they were then, the others as they are in the end, if the kept operations have written them. */
  ghost function Mixed(c: Cut, suf: seq<Stamped>, cid: CollectionId, d: map<Str, Entry>): map<Str, Entry>
    requires cid in c.st.collections
  {
    var p := PartialDocuments(c.st.collections[cid], cid, c.copied, c.mv);
    map id | id in d.Keys + p.Keys && (if Touched(suf, cid, id) then id in d else id in p) :: if Touched(suf, cid, id) then d[id] else p[id]
  }

  /** The end creates a unique index of an older collection that is not there, and two of the documents there share a value. */
  ghost predicate Collides(c: Cut, suf: seq<Stamped>, s: Stamped, d: State) {
    && s.op.CreateIndex? && s.op.unique && Declared(c.front, s.op.collectionId)
    && s.op.collectionId in c.st.collections && s.op.collectionId in d.collections
    && !There(c, suf, s.op.collectionId, s.op.field)
    && HasDuplicate(Index(s.op.kind, true, Postings(s.op.kind, s.op.field, Mixed(c, suf, s.op.collectionId, d.collections[s.op.collectionId].documents))))
  }

  /** What keeps the operation `m` from being applied a second time. */
  ghost predicate Blocked(c: Cut, ss: seq<Stamped>, j: nat, m: nat) {
    && j <= m < |ss| && ApplyOps(EMPTY, ss[..m]).Ok?
    && (Missing(c, ss[j..m], ss[m]) || Collides(c, ss[j..m], ss[m], StateAt(ss, m)))
  }

  lemma MixedThere(c: Cut, suf: seq<Stamped>, cid: CollectionId, d: map<Str, Entry>, t: map<Str, Entry>)
    requires cid in c.st.collections && OverlayDocuments(c, suf, cid, d, t)
    ensures t == Mixed(c, suf, cid, d)
  {
    hide PartialDocuments, Touched;
    forall id
      ensures SameAt(t, Mixed(c, suf, cid, d), id)
    {
      assert SameAt(t, if Touched(suf, cid, id) then d else PartialDocuments(c.st.collections[cid], cid, c.copied, c.mv), id);
    }
    SameEverywhere(t, Mixed(c, suf, cid, d));
  }

  lemma DeclaredWithin(ss: seq<Stamped>, a: nat, b: nat, cid: CollectionId)
    requires a <= b <= |ss| && Declared(ss[..a], cid)
    ensures Declared(ss[..b], cid)
  {
    var d :| d in ss[..a] && Declares(d, cid);
    assert d in ss[..b];
  }

  /** An older collection is there until the end, once it is there. */
  lemma OlderStays(c: Cut, ss: seq<Stamped>, j: nat, k: nat, m: nat, cid: CollectionId)
    requires Setting(c, ss, j, k) && j <= m <= |ss| && ApplyOps(EMPTY, ss[..m]).Ok? && Declared(ss[..j], cid)
    ensures cid in c.st.collections <==> cid in StateAt(ss, m).collections
    ensures cid in c.st.collections ==> c.st.collections[cid].name == StateAt(ss, m).collections[cid].name
  {
    hide AllUnique, NamesConsistent, OffsetsIncrease, SameDefinition;
    NotAgain(ss, j, cid);
    assert ss[..|ss|] == ss;
    CollectionStays(ss, m, |ss|, cid);
  }

  lemma InSlice(ss: seq<Stamped>, j: nat, m: nat, s: Stamped)
    requires j <= m <= |ss| && s in ss[..m]
    ensures s in ss[..j] || s in ss[j..m]
  {
    var i :| 0 <= i < m && ss[..m][i] == s;
    if i < j {
      assert ss[..j][i] == s;
    } else {
      assert ss[j..m][i - j] == s;
    }
  }

  /** An index that is there has been created. */
  lemma IndexCreated(c: Cut, ss: seq<Stamped>, j: nat, k: nat, m: nat, cid: CollectionId, f: Str)
    requires Setting(c, ss, j, k) && j <= m <= |ss| && ApplyOps(EMPTY, ss[..m]).Ok?
    requires cid in StateAt(ss, m).collections && f in StateAt(ss, m).collections[cid].indexes
    ensures Created(c.copied, cid, f) || Created(ss[j..m], cid, f)
  {
    hide AllUnique, NamesConsistent, OffsetsIncrease, IdsNeverReused, KeepsOlder, KeptIndexesAgree, ApplyOps;
    OpsTraced(ss[..m]);
    assert TracedCollection(StateAt(ss, m).collections[cid], cid, ss[..m]) && TracedIndex(StateAt(ss, m).collections[cid].indexes[f], cid, f, ss[..m]);
    var index := StateAt(ss, m).collections[cid].indexes[f];
    var o :| Stamped(o, CreateIndex(cid, f, index.kind, index.unique)) in ss[..m];
    var s := Stamped(o, CreateIndex(cid, f, index.kind, index.unique));
    assert Creates(s, cid, f);
    InSlice(ss, j, m, s);
    if s in ss[..j] {
      var i :| 0 <= i < j && ss[..j][i] == s;
      assert ss[..k][i] == s;
    }
  }

  lemma OffsetsFrom(ss: seq<Stamped>, m: nat)
    requires OffsetsIncrease(ss) && m < |ss|
    ensures forall i :: m <= i < |ss| ==> ss[i].offset >= ss[m].offset
    ensures forall k, s :: 0 <= k <= m && s in ss[..k] ==> s.offset < ss[m].offset
  {
  }

  /** One operation of the end on an older collection. */
  lemma OlderStep(c: Cut, ss: seq<Stamped>, j: nat, k: nat, m: nat, t: State)
    requires Setting(c, ss, j, k) && j <= m < |ss| && ApplyOps(EMPTY, ss[..m]).Ok? && Sim(c, ss[j..m], StateAt(ss, m), t)
    requires (ss[m].op.PutDocument? || ss[m].op.DeleteDocument? || ss[m].op.CreateIndex? || ss[m].op.DropIndex?) && Declared(ss[..j], ss[m].op.collectionId)
    requires Apply(StateAt(ss, m), ss[m].op, ss[m].offset).Ok?
    ensures Apply(t, ss[m].op, ss[m].offset).Ok? <==> !Missing(c, ss[j..m], ss[m]) && !Collides(c, ss[j..m], ss[m], StateAt(ss, m))
    ensures Apply(t, ss[m].op, ss[m].offset).Ok? ==>
              Sim(c, ss[j..m] + [ss[m]], Apply(StateAt(ss, m), ss[m].op, ss[m].offset).value, Apply(t, ss[m].op, ss[m].offset).value)
  {
    hide WellLogged, KeepsOlder, KeptIndexesAgree, ApplyOps, StateAt, Overlay, PutInto, RemoveFrom, CreateIndexIn, Mirrors, Declared, SimNames, Collides, Created;
    var s, cid := ss[m], ss[m].op.collectionId;
    var d := StateAt(ss, m);
    assert SimCollection(c, ss[j..m], d, t, cid);
    var dc, tc := d.collections[cid], t.collections[cid];
    match s.op
    case PutDocument(_, id, document) =>
      var e := Entry(s.offset, document);
      OverlayPut(c, ss[j..m], s, dc, tc);
      PutMirrors(dc, id, e);
      PutMirrors(tc, id, e);
      SimChange(c, ss[j..m], s, d, t, PutInto(dc, id, e), PutInto(tc, id, e));
      OnlyIndexes(c, ss[j..m], s, d);
    case DeleteDocument(_, id) =>
      OverlayDelete(c, ss[j..m], s, dc, tc);
      RemoveMirrors(dc, id);
      RemoveMirrors(tc, id);
      SimChange(c, ss[j..m], s, d, t, RemoveFrom(dc, id), RemoveFrom(tc, id));
      OnlyIndexes(c, ss[j..m], s, d);
    case CreateIndex(_, field, kind, unique) =>
      OlderCreate(c, ss, j, k, m, dc, tc);
      if CreateIndexIn(tc, field, kind, unique).Ok? {
        CreateIndexMirrors(dc, field, kind, unique);
        CreateIndexMirrors(tc, field, kind, unique);
        SimChange(c, ss[j..m], s, d, t, CreateIndexIn(dc, field, kind, unique).value, CreateIndexIn(tc, field, kind, unique).value);
      }
    case DropIndex(_, field) =>
      OlderDropIndex(c, ss[j..m], s, d, t);
  }

  lemma OnlyIndexes(c: Cut, suf: seq<Stamped>, s: Stamped, d: State)
    requires !s.op.CreateIndex?
    ensures !Collides(c, suf, s, d)
  {
  }

  lemma OlderDropIndex(c: Cut, suf: seq<Stamped>, s: Stamped, d: State, t: State)
    requires Sim(c, suf, d, t) && s.op.DropIndex? && Declared(c.front, s.op.collectionId) && Apply(d, s.op, s.offset).Ok?
    ensures Apply(t, s.op, s.offset).Ok? <==> !Missing(c, suf, s) && !Collides(c, suf, s, d)
    ensures Apply(t, s.op, s.offset).Ok? ==> Sim(c, suf + [s], Apply(d, s.op, s.offset).value, Apply(t, s.op, s.offset).value)
  {
    hide Sim, Overlay, Mirrors, Declared, Collides, Created;
    var cid, field := s.op.collectionId, s.op.field;
    SimHas(c, suf, d, t, cid);
    var dc, tc := d.collections[cid], t.collections[cid];
    OnlyIndexes(c, suf, s, d);
    OverlayHas(c, suf, cid, dc, tc);
    OverlayDropIndex(c, suf, s, dc, tc);
    if field in tc.indexes {
      DropIndexMirrors(dc, field);
      DropIndexMirrors(tc, field);
      SimChange(c, suf, s, d, t, DropIndexIn(dc, field).value, DropIndexIn(tc, field).value);
    }
  }

  lemma SimHas(c: Cut, suf: seq<Stamped>, d: State, t: State, cid: CollectionId)
    requires Sim(c, suf, d, t) && Declared(c.front, cid) && cid in d.collections
    ensures cid in t.collections && Overlay(c, suf, cid, d.collections[cid], t.collections[cid])
    ensures Mirrors(d.collections[cid]) && Mirrors(t.collections[cid])
  {
    hide Overlay, Mirrors, Declared, SimNames;
    assert SimCollection(c, suf, d, t, cid);
  }

  lemma OverlayHas(c: Cut, suf: seq<Stamped>, cid: CollectionId, d: Collection, t: Collection)
    requires Overlay(c, suf, cid, d, t)
    ensures cid in c.st.collections
  {
  }

  lemma OlderCreate(c: Cut, ss: seq<Stamped>, j: nat, k: nat, m: nat, d: Collection, t: Collection)
    requires Setting(c, ss, j, k) && j <= m < |ss| && ApplyOps(EMPTY, ss[..m]).Ok? && ss[m].op.CreateIndex?
    requires Declared(ss[..j], ss[m].op.collectionId) && ss[m].op.collectionId in StateAt(ss, m).collections
    requires d == StateAt(ss, m).collections[ss[m].op.collectionId] && Mirrors(d) && Mirrors(t)
    requires Overlay(c, ss[j..m], ss[m].op.collectionId, d, t) && CreateIndexIn(d, ss[m].op.field, ss[m].op.kind, ss[m].op.unique).Ok?
    ensures CreateIndexIn(t, ss[m].op.field, ss[m].op.kind, ss[m].op.unique).Ok? <==> !Collides(c, ss[j..m], ss[m], StateAt(ss, m))
    ensures CreateIndexIn(t, ss[m].op.field, ss[m].op.kind, ss[m].op.unique).Ok? ==>
              Overlay(c, ss[j..m] + [ss[m]], ss[m].op.collectionId, CreateIndexIn(d, ss[m].op.field, ss[m].op.kind, ss[m].op.unique).value,
                      CreateIndexIn(t, ss[m].op.field, ss[m].op.kind, ss[m].op.unique).value)
  {
    hide KeepsOlder, ApplyOps, StateAt, OverlayDocuments, There, CreateIndexIn, Mirrors, Declared, Created, WellLogged, SameDefinition, Mixed, Postings, HasDuplicate;
    var s, cid := ss[m], ss[m].op.collectionId;
    assert s in ss;
    MixedThere(c, ss[j..m], cid, d.documents, t.documents);
    OverlayCreate(c, ss[j..m], s, d, t);
  }

  /** One operation of the end on a collection it has declared itself: both have the same. */
  lemma NewerStep(c: Cut, suf: seq<Stamped>, s: Stamped, d: State, t: State)
    requires Sim(c, suf, d, t) && Apply(d, s.op, s.offset).Ok?
    requires (s.op.PutDocument? || s.op.DeleteDocument? || s.op.CreateIndex? || s.op.DropIndex? || s.op.DropCollection?)
    requires !Declared(c.front, s.op.collectionId)
    ensures Apply(t, s.op, s.offset).Ok?
    ensures Sim(c, suf + [s], Apply(d, s.op, s.offset).value, Apply(t, s.op, s.offset).value)
  {
    hide Overlay, PutInto, RemoveFrom, CreateIndexIn, DropIndexIn, Mirrors, Declared, SimNames;
    var cid := s.op.collectionId;
    assert SimCollection(c, suf, d, t, cid);
    var dc := d.collections[cid];
    assert t.collections[cid] == dc;
    if s.op.DropCollection? {
      SimDrop(c, suf, s, d, t);
    } else {
      var e := Apply(d, s.op, s.offset).value;
      ApplyMirrors(d, s.op, s.offset);
      ChangesOne(d, s);
      ChangesOne(t, s);
      assert Mirrors(e.collections[cid]);
      SimChange(c, suf, s, d, t, e.collections[cid], e.collections[cid]);
    }
  }

  /** Such an operation changes its collection only, and what it makes of it depends on nothing else. */
  lemma ChangesOne(st: State, s: Stamped)
    requires s.op.PutDocument? || s.op.DeleteDocument? || s.op.CreateIndex? || s.op.DropIndex?
    requires s.op.collectionId in st.collections
    ensures var a := Apply(State(map[s.op.collectionId := st.collections[s.op.collectionId]], map[]), s.op, s.offset);
            && a.Ok? == Apply(st, s.op, s.offset).Ok?
            && (a.Ok? ==> s.op.collectionId in a.value.collections
                          && Apply(st, s.op, s.offset) == Ok(WithCollection(st, s.op.collectionId, a.value.collections[s.op.collectionId])))
  {
    hide PutInto, RemoveFrom, CreateIndexIn, DropIndexIn;
  }

  /** An operation that could be applied can be applied again unless it is blocked. */
  lemma SimStep(c: Cut, ss: seq<Stamped>, j: nat, k: nat, m: nat, t: State)
    requires Setting(c, ss, j, k) && j <= m < |ss| && ApplyOps(EMPTY, ss[..m]).Ok? && Sim(c, ss[j..m], StateAt(ss, m), t)
    ensures Apply(t, ss[m].op, ss[m].offset).Ok? <==> !Blocked(c, ss, j, m)
    ensures ApplyOps(EMPTY, ss[..m + 1]).Ok?
    ensures Apply(t, ss[m].op, ss[m].offset).Ok? ==> Sim(c, ss[j..m + 1], StateAt(ss, m + 1), Apply(t, ss[m].op, ss[m].offset).value)
  {
    hide Sim, ApplyOps, StateAt, Declared, KeptIndexesAgree, AllUnique, NamesConsistent, OffsetsIncrease, IdsNeverReused, PutInto, RemoveFrom, CreateIndexIn, DropIndexIn, AllMirror, Traced, Collides, Missing;
    var s := ss[m];
    NextState(ss, m);
    assert ss[j..m + 1] == ss[j..m] + [s];
    NotIndexing(c, ss[j..m], s, StateAt(ss, m));
    match s.op
    case Hole => SimHole(c, ss[j..m], s, StateAt(ss, m), t);
    case NewCollection(cid, name) =>
      NewerDeclared(ss, j, m);
      SimNew(c, ss[j..m], s, StateAt(ss, m), t);
    case PutDocument(cid, _, _) => CollectionStep(c, ss, j, k, m, t);
    case DeleteDocument(cid, _) => CollectionStep(c, ss, j, k, m, t);
    case CreateIndex(cid, _, _, _) => CollectionStep(c, ss, j, k, m, t);
    case DropIndex(cid, _) => CollectionStep(c, ss, j, k, m, t);
    case DropCollection(cid) => NewerStep(c, ss[j..m], s, StateAt(ss, m), t);
    case _ =>
  }

  lemma NotIndexing(c: Cut, suf: seq<Stamped>, s: Stamped, d: State)
    ensures (!s.op.CreateIndex? && !s.op.DropIndex?) || !Declared(c.front, s.op.collectionId) ==> !Missing(c, suf, s) && !Collides(c, suf, s, d)
  {
    hide Declared;
  }

  lemma CollectionStep(c: Cut, ss: seq<Stamped>, j: nat, k: nat, m: nat, t: State)
    requires Setting(c, ss, j, k) && j <= m < |ss| && ApplyOps(EMPTY, ss[..m]).Ok? && Sim(c, ss[j..m], StateAt(ss, m), t)
    requires ss[m].op.PutDocument? || ss[m].op.DeleteDocument? || ss[m].op.CreateIndex? || ss[m].op.DropIndex?
    requires Apply(StateAt(ss, m), ss[m].op, ss[m].offset).Ok?
    ensures Apply(t, ss[m].op, ss[m].offset).Ok? <==> !Missing(c, ss[j..m], ss[m]) && !Collides(c, ss[j..m], ss[m], StateAt(ss, m))
    ensures Apply(t, ss[m].op, ss[m].offset).Ok? ==>
              Sim(c, ss[j..m] + [ss[m]], Apply(StateAt(ss, m), ss[m].op, ss[m].offset).value, Apply(t, ss[m].op, ss[m].offset).value)
  {
    hide Sim, ApplyOps, StateAt, Apply, WellLogged, KeepsOlder, KeptIndexesAgree, Collides, Missing, Declared;
    if Declared(ss[..j], ss[m].op.collectionId) {
      OlderStep(c, ss, j, k, m, t);
    } else {
      NewerStep(c, ss[j..m], ss[m], StateAt(ss, m), t);
      NotIndexing(c, ss[j..m], ss[m], StateAt(ss, m));
    }
  }

  lemma NewerDeclared(ss: seq<Stamped>, j: nat, m: nat)
    requires IdsNeverReused(ss) && j <= m < |ss| && ss[m].op.NewCollection?
    ensures !Declared(ss[..j], ss[m].op.collectionId)
  {
    NewDeclares(ss[m]);
    if Declared(ss[..j], ss[m].op.collectionId) {
      NotAgain(ss, j, ss[m].op.collectionId);
      assert false;
    }
  }

  // ---------------------------------------------------------------------------
  // Where the end begins
  // ---------------------------------------------------------------------------

  lemma NothingTouched(cid: CollectionId)
    ensures !Declared([], cid)
    ensures forall id :: !Touched([], cid, id)
    ensures forall f :: !Created([], cid, f)
  {
  }

  lemma PartialAllMirror(st: State, pre: seq<Stamped>, mv: map<nat, nat>)
    ensures AllMirror(PartialState(st, pre, mv))
  {
    hide Mirrors, PartialCollection;
    forall cid | cid in PartialState(st, pre, mv).collections
      ensures Mirrors(PartialState(st, pre, mv).collections[cid])
    {
      PartialMirrors(st.collections[cid], cid, pre, mv);
    }
  }

  lemma OverlayStart(c: Cut, cid: CollectionId, d: Collection)
    requires cid in c.st.collections && d.name == c.st.collections[cid].name
    requires forall f :: f in d.indexes ==> Created(c.copied, cid, f)
    ensures Overlay(c, [], cid, d, PartialCollection(c.st.collections[cid], cid, c.copied, c.mv))
  {
    hide PartialDocuments, Touched, Created, Postings;
    NothingTouched(cid);
  }

  lemma StartCollection(c: Cut, ss: seq<Stamped>, j: nat, k: nat, cid: CollectionId)
    requires Setting(c, ss, j, k) && ApplyOps(EMPTY, ss[..j]).Ok?
    ensures SimCollection(c, [], StateAt(ss, j), PartialState(c.st, c.copied, c.mv), cid)
  {
    hide PartialCollection, Overlay, WellLogged, KeepsOlder, KeptIndexesAgree, StateAt, ApplyOps, Created, Declared;
    NothingTouched(cid);
    if Declared(ss[..j], cid) {
      OlderStays(c, ss, j, k, j, cid);
      DeclaredWithin(ss, j, k, cid);
      if cid in c.st.collections {
        forall f | f in StateAt(ss, j).collections[cid].indexes
          ensures Created(c.copied, cid, f)
        {
          IndexCreated(c, ss, j, k, j, cid, f);
          assert ss[j..j] == [];
        }
        OverlayStart(c, cid, StateAt(ss, j).collections[cid]);
      }
    } else if cid in StateAt(ss, j).collections {
      InDeclared(ss, j, cid);
    }
  }

  lemma StartNames(c: Cut, ss: seq<Stamped>, j: nat, k: nat)
    requires Setting(c, ss, j, k) && ApplyOps(EMPTY, ss[..j]).Ok?
    ensures SimNames(c, StateAt(ss, j), PartialState(c.st, c.copied, c.mv))
  {
    hide PartialCollection, KeepsOlder, KeptIndexesAgree, StateAt, ApplyOps, AllUnique, IdsNeverReused, OffsetsIncrease, SameDefinition;
    NamesPointAt(ss, j);
    forall n | n in StateAt(ss, j).names
      ensures n in c.st.names && c.st.names[n] == StateAt(ss, j).names[n] && Declared(c.copied, c.st.names[n])
    {
      var cid := StateAt(ss, j).names[n];
      InDeclared(ss, j, cid);
      OlderStays(c, ss, j, k, j, cid);
      DeclaredWithin(ss, j, k, cid);
    }
  }

  lemma SimStart(c: Cut, ss: seq<Stamped>, j: nat, k: nat)
    requires Setting(c, ss, j, k)
    ensures ApplyOps(EMPTY, ss[..j]).Ok? && Sim(c, [], StateAt(ss, j), PartialState(c.st, c.copied, c.mv))
  {
    hide PartialCollection, SimNames, SimCollection, KeepsOlder, KeptIndexesAgree, AllUnique, NamesConsistent, IdsNeverReused, OffsetsIncrease, Mirrors, Traced;
    PrefixApplies(EMPTY, ss, j);
    OpsTraced(ss[..j]);
    PartialAllMirror(c.st, c.copied, c.mv);
    StartNames(c, ss, j, k);
    forall cid
      ensures SimCollection(c, [], StateAt(ss, j), PartialState(c.st, c.copied, c.mv), cid)
      ensures cid in StateAt(ss, j).collections ==> Declared(c.front, cid)
    {
      StartCollection(c, ss, j, k, cid);
      if cid in StateAt(ss, j).collections {
        InDeclared(ss, j, cid);
      }
    }
  }

  lemma {:induction false} SimRun(c: Cut, ss: seq<Stamped>, j: nat, k: nat, m: nat)
    requires Setting(c, ss, j, k) && j <= m <= |ss| && forall i :: j <= i < m ==> !Blocked(c, ss, j, i)
    ensures ApplyOps(EMPTY, ss[..m]).Ok?
    ensures var t := ApplyOps(PartialState(c.st, c.copied, c.mv), ss[j..m]);
            t.Ok? && Sim(c, ss[j..m], StateAt(ss, m), t.value)
    decreases m
  {
    hide Setting, Sim, StateAt, Apply, PartialState, Blocked;
    if m == j {
      SimStart(c, ss, j, k);
      assert ss[j..j] == [];
    } else {
      SimRun(c, ss, j, k, m - 1);
      SimStep(c, ss, j, k, m - 1, ApplyOps(PartialState(c.st, c.copied, c.mv), ss[j..m - 1]).value);
      assert ss[j..m][..m - 1 - j] == ss[j..m - 1];
    }
  }

  /** The first operation that is blocked throws. */
  lemma {:induction false} BlockedThrows(c: Cut, ss: seq<Stamped>, j: nat, k: nat, m: nat)
    requires Setting(c, ss, j, k) && Blocked(c, ss, j, m)
    ensures ApplyOps(PartialState(c.st, c.copied, c.mv), ss[j..]).Err?
    decreases m
  {
    hide Setting, Sim, StateAt, Apply, PartialState, Missing, Collides;
    if i :| j <= i < m && Blocked(c, ss, j, i) {
      BlockedThrows(c, ss, j, k, i);
    } else {
      var p := PartialState(c.st, c.copied, c.mv);
      SimRun(c, ss, j, k, m);
      SimStep(c, ss, j, k, m, ApplyOps(p, ss[j..m]).value);
      assert ss[j..m + 1][..m - j] == ss[j..m] && ss[j..][..m + 1 - j] == ss[j..m + 1];
      if ApplyOps(p, ss[j..]).Ok? {
        PrefixApplies(p, ss[j..], m + 1 - j);
      }
    }
  }

  // ---------------------------------------------------------------------------
  // Where it ends
  // ---------------------------------------------------------------------------

  /** Only what stood before the bound has moved. */
  function Below(mv: map<nat, nat>, bound: nat): map<nat, nat> {
    map o | o in mv && o < bound :: mv[o]
  }

  predicate SplitsAt(ss: seq<Stamped>, j: nat, bound: nat)
    requires j <= |ss|
  {
    (forall i :: 0 <= i < j ==> ss[i].offset < bound) && forall i :: j <= i < |ss| ==> ss[i].offset >= bound
  }

  /** The current version of a document stands in the front, untouched since, or the end has written it. */
  lemma WrittenBefore(c: Cut, ss: seq<Stamped>, j: nat, k: nat, cid: CollectionId, id: Str, bound: nat)
    requires Setting(c, ss, j, k) && Has(c.st, cid, id) && SplitsAt(ss, j, bound)
    ensures if c.st.collections[cid].documents[id].offset < bound
            then PutStamp(cid, id, c.st.collections[cid].documents[id]) in c.copied && !Touched(ss[j..], cid, id) && Declared(c.front, cid)
            else Touched(ss[j..], cid, id)
  {
    hide AllUnique, NamesConsistent, IdsNeverReused, KeepsOlder, KeptIndexesAgree, Touched, TracedIndex, Apply, AllMirror, Declared, OffsetsIncrease;
    var documents := c.st.collections[cid].documents;
    OpsTraced(ss);
    assert TracedCollection(c.st.collections[cid], cid, ss);
    var s := PutStamp(cid, id, documents[id]);
    var i :| 0 <= i < |ss| && ss[i] == s;
    assert ss[..|ss|] == ss && ss[j..|ss|] == ss[j..];
    PrefixApplies(EMPTY, ss, j);
    if i < j {
      OldEntry(ss, j, |ss|, cid, id, bound);
      InDeclared(ss, j, cid);
      assert ss[..k][i] == s;
    } else {
      assert ss[j..][i - j] == s;
      IsTouched(ss[j..], s, cid, id);
    }
  }

  lemma EndDocument(c: Cut, ss: seq<Stamped>, j: nat, k: nat, cid: CollectionId, t: map<Str, Entry>, id: Str, bound: nat)
    requires Setting(c, ss, j, k) && cid in c.st.collections && SplitsAt(ss, j, bound)
    requires OverlayDocuments(c, ss[j..], cid, c.st.collections[cid].documents, t)
    ensures SameAt(t, MoveDocuments(c.st.collections[cid].documents, Below(c.mv, bound)), id)
  {
    hide WellLogged, KeepsOlder, KeptIndexesAgree, SplitsAt, Touched, ApplyOps;
    var documents := c.st.collections[cid].documents;
    assert SameAt(t, if Touched(ss[j..], cid, id) then documents else PartialDocuments(c.st.collections[cid], cid, c.copied, c.mv), id);
    if id in documents {
      WrittenBefore(c, ss, j, k, cid, id, bound);
    }
  }

  lemma IsTouched(suf: seq<Stamped>, s: Stamped, cid: CollectionId, id: Str)
    requires s in suf && Touches(s, cid, id)
    ensures Touched(suf, cid, id)
  {
  }

  lemma EndOlder(c: Cut, ss: seq<Stamped>, j: nat, k: nat, cid: CollectionId, t: Collection, bound: nat)
    requires Setting(c, ss, j, k) && cid in c.st.collections && SplitsAt(ss, j, bound) && Mirrors(t)
    requires Overlay(c, ss[j..], cid, c.st.collections[cid], t)
    ensures t == Relocate(c.st.collections[cid], Below(c.mv, bound))
  {
    hide WellLogged, KeepsOlder, KeptIndexesAgree, SplitsAt, OverlayDocuments, OverlayIndexes, Postings, Mirrors, MoveDocuments, Below, SameAt;
    var s := c.st.collections[cid];
    var r := Relocate(s, Below(c.mv, bound));
    forall id
      ensures SameAt(t.documents, MoveDocuments(s.documents, Below(c.mv, bound)), id)
    {
      EndDocument(c, ss, j, k, cid, t.documents, id, bound);
    }
    SameEverywhere(t.documents, MoveDocuments(s.documents, Below(c.mv, bound)));
    EndIndexes(c, ss[j..], cid, t);
    RelocateMirrors(s, Below(c.mv, bound));
    SameByMirror(t, r);
  }

  lemma SameEverywhere(a: map<Str, Entry>, b: map<Str, Entry>)
    requires forall id :: SameAt(a, b, id)
    ensures a == b
  {
    assert forall id :: id in a <==> id in b by {
      forall id
        ensures id in a <==> id in b
      {
        assert SameAt(a, b, id);
      }
    }
    assert forall id :: id in a ==> a[id] == b[id] by {
      forall id | id in a
        ensures a[id] == b[id]
      {
        assert SameAt(a, b, id);
      }
    }
  }

  lemma RelocateMirrors(c: Collection, mv: map<nat, nat>)
    ensures Mirrors(Relocate(c, mv)) && SameDefinitions(c, Relocate(c, mv))
  {
    hide Postings;
  }

  lemma EndIndexes(c: Cut, suf: seq<Stamped>, cid: CollectionId, t: Collection)
    requires cid in c.st.collections && OverlayIndexes(c, suf, cid, c.st.collections[cid], t)
    ensures SameDefinitions(c.st.collections[cid], t)
  {
    hide Created, There;
  }

  lemma EndNewer(c: Cut, ss: seq<Stamped>, j: nat, k: nat, cid: CollectionId, bound: nat)
    requires Setting(c, ss, j, k) && cid in c.st.collections && SplitsAt(ss, j, bound) && !Declared(c.front, cid) && Mirrors(c.st.collections[cid])
    ensures c.st.collections[cid] == Relocate(c.st.collections[cid], Below(c.mv, bound))
  {
    hide WellLogged, KeepsOlder, KeptIndexesAgree, SplitsAt, Postings, Mirrors, Touched;
    var s := c.st.collections[cid];
    forall id | id in s.documents
      ensures s.documents[id].offset >= bound
    {
      WrittenBefore(c, ss, j, k, cid, id, bound);
    }
    assert MoveDocuments(s.documents, Below(c.mv, bound)) == s.documents;
    RelocateMirrors(s, Below(c.mv, bound));
    SameByMirror(s, Relocate(s, Below(c.mv, bound)));
  }

  lemma SimEnds(c: Cut, ss: seq<Stamped>, j: nat, k: nat, t: State, bound: nat)
    requires Setting(c, ss, j, k) && SplitsAt(ss, j, bound) && Sim(c, ss[j..], c.st, t)
    ensures t == RelocateState(c.st, Below(c.mv, bound))
  {
    hide SplitsAt, Overlay, AllUnique, NamesConsistent, IdsNeverReused, KeepsOlder, KeptIndexesAgree, OffsetsIncrease, Mirrors, Relocate, Below, Declared;
    var r := RelocateState(c.st, Below(c.mv, bound));
    forall cid
      ensures cid in t.collections <==> cid in c.st.collections
      ensures cid in t.collections ==> t.collections[cid] == Relocate(c.st.collections[cid], Below(c.mv, bound))
    {
      assert SimCollection(c, ss[j..], c.st, t, cid);
      if cid in t.collections && Declared(c.copied, cid) {
        FrontOrEnd(ss, j, k, cid);
      }
      if cid in c.st.collections && cid in t.collections {
        if Declared(c.front, cid) {
          EndOlder(c, ss, j, k, cid, t.collections[cid], bound);
        } else {
          EndNewer(c, ss, j, k, cid, bound);
        }
      }
    }
    assert t.collections == r.collections;
    assert t.names == c.st.names;
  }

  lemma FrontOrEnd(ss: seq<Stamped>, j: nat, k: nat, cid: CollectionId)
    requires j <= k <= |ss| && Declared(ss[..k], cid)
    ensures Declared(ss[..j], cid) || Declared(ss[j..], cid)
  {
    var d :| d in ss[..k] && Declares(d, cid);
    var i :| 0 <= i < k && ss[..k][i] == d;
    if i < j {
      assert ss[..j][i] == d;
    } else {
      assert ss[j..][i - j] == d;
    }
  }

  /**
   The end of the log, read over the kept operations of a longer front, throws exactly if one of its operations is
   blocked, and otherwise rebuilds the final memory: what the end did not write stands where it was moved to,
   the rest where it was.
   */
  lemma ResumedRebuild(c: Cut, ss: seq<Stamped>, j: nat, k: nat, bound: nat)
    requires Setting(c, ss, j, k) && SplitsAt(ss, j, bound)
    ensures var r := ApplyOps(PartialState(c.st, c.copied, c.mv), ss[j..]);
            && (r.Ok? <==> forall m :: j <= m < |ss| ==> !Blocked(c, ss, j, m))
            && (r.Ok? ==> r == Ok(RelocateState(c.st, Below(c.mv, bound))))
  {
    hide SplitsAt, AllUnique, NamesConsistent, IdsNeverReused, KeepsOlder, KeptIndexesAgree, OffsetsIncrease, Sim, PartialState, RelocateState, Apply, Blocked;
    if m :| j <= m < |ss| && Blocked(c, ss, j, m) {
      BlockedThrows(c, ss, j, k, m);
    } else {
      SimRun(c, ss, j, k, |ss|);
      assert ss[j..|ss|] == ss[j..] && ss[..|ss|] == ss;
      SimEnds(c, ss, j, k, ApplyOps(PartialState(c.st, c.copied, c.mv), ss[j..]).value, bound);
    }
  }

  // ---------------------------------------------------------------------------
  // Nothing is blocked where no older index is dropped
  // ---------------------------------------------------------------------------

  /** From `j` on no index is dropped of a collection declared before. */
  ghost predicate KeepsOlderIndexes(ss: seq<Stamped>, j: nat)
    requires j <= |ss|
  {
    forall i :: j <= i < |ss| && ss[i].op.DropIndex? ==> !Declared(ss[..j], ss[i].op.collectionId)
  }

  lemma CreatedLater(ss: seq<Stamped>, k: nat, m: nat)
    requires k <= |ss| && m < |ss| && ss[m].op.CreateIndex? && !Created(ss[..k], ss[m].op.collectionId, ss[m].op.field)
    ensures k <= m
  {
    assert Creates(ss[m], ss[m].op.collectionId, ss[m].op.field);
  }

  /** When the end creates an index that nothing before has created, the documents there are those it was created over, or fewer. */
  lemma DocumentsThere(c: Cut, ss: seq<Stamped>, j: nat, k: nat, m: nat, id: Str)
    requires Setting(c, ss, j, k) && j <= m < |ss| && ApplyOps(EMPTY, ss[..m]).Ok? && ss[m].op.CreateIndex?
    requires var cid := ss[m].op.collectionId;
             && cid in c.st.collections && cid in StateAt(ss, m).collections && !Created(ss[..k], cid, ss[m].op.field)
             && id in Mixed(c, ss[j..m], cid, StateAt(ss, m).collections[cid].documents)
    ensures var cid := ss[m].op.collectionId;
            var d := StateAt(ss, m).collections[cid].documents;
            id in d && Mixed(c, ss[j..m], cid, d)[id].document == d[id].document
  {
    hide AllUnique, NamesConsistent, IdsNeverReused, KeepsOlder, KeptIndexesAgree, ApplyOps, Touched;
    var cid := ss[m].op.collectionId;
    if !Touched(ss[j..m], cid, id) {
      CreatedLater(ss, k, m);
      var s := PutStamp(cid, id, c.st.collections[cid].documents[id]);
      assert s in ss[..k];
      OffsetsFrom(ss, m);
      assert ss[..|ss|] == ss;
      OldEntry(ss, m, |ss|, cid, id, ss[m].offset);
    }
  }

  /** What is not there although it is final has not been created, if nothing is dropped. */
  lemma {:induction false} NotThere(c: Cut, suf: seq<Stamped>, cid: CollectionId, f: Str)
    requires !There(c, suf, cid, f) && forall s :: s in suf ==> !DropsIndex(s, cid)
    ensures !Created(suf, cid, f)
    ensures cid in c.st.collections && f in c.st.collections[cid].indexes ==> !Created(c.copied, cid, f)
    decreases |suf|
  {
    hide Created, Creates;
    if |suf| == 0 {
      NothingTouched(cid);
    } else {
      var n := |suf| - 1;
      assert suf == suf[..n] + [suf[n]];
      CreatedMore(suf[..n], suf[n], cid, f);
      assert suf[n] in suf && !DropsIndex(suf[n], cid);
      NotThere(c, suf[..n], cid, f);
    }
  }

  /** An index the end creates is final if the end drops none of its collection. */
  lemma CreatedStays(c: Cut, ss: seq<Stamped>, j: nat, k: nat, m: nat)
    requires Setting(c, ss, j, k) && KeepsOlderIndexes(ss, j) && j <= m < |ss| && ss[m].op.CreateIndex? && Declared(ss[..j], ss[m].op.collectionId)
    ensures ss[m].op.collectionId in c.st.collections && ss[m].op.field in c.st.collections[ss[m].op.collectionId].indexes
    ensures ApplyOps(EMPTY, ss[..m]).Ok? && ss[m].op.collectionId in StateAt(ss, m).collections
    ensures CreateIndexIn(StateAt(ss, m).collections[ss[m].op.collectionId], ss[m].op.field, ss[m].op.kind, ss[m].op.unique).Ok?
    ensures Mirrors(StateAt(ss, m).collections[ss[m].op.collectionId])
  {
    hide AllUnique, NamesConsistent, OffsetsIncrease, KeptIndexesAgree, StateAt, ApplyOps, CreateIndexIn, Traced, Mirrors, Declared;
    var cid := ss[m].op.collectionId;
    NextState(ss, m);
    NextCreated(StateAt(ss, m), ss[m]);
    NotAgain(ss, j, cid);
    assert ss[..|ss|] == ss;
    FinalState(c, ss, j, k);
    CollectionStays(ss, m + 1, |ss|, cid);
  }

  lemma FinalState(c: Cut, ss: seq<Stamped>, j: nat, k: nat)
    requires Setting(c, ss, j, k)
    ensures ApplyOps(EMPTY, ss).Ok? && ApplyOps(EMPTY, ss[..|ss|]).Ok? && StateAt(ss, |ss|) == c.st
  {
    hide AllUnique, NamesConsistent, OffsetsIncrease, KeptIndexesAgree, KeepsOlder, IdsNeverReused;
    assert ss[..|ss|] == ss;
  }

  lemma NextCreated(st: State, s: Stamped)
    requires s.op.CreateIndex? && Apply(st, s.op, s.offset).Ok? && AllMirror(st)
    ensures s.op.collectionId in st.collections && CreateIndexIn(st.collections[s.op.collectionId], s.op.field, s.op.kind, s.op.unique).Ok?
    ensures Mirrors(st.collections[s.op.collectionId])
    ensures var next := Apply(st, s.op, s.offset).value;
            s.op.collectionId in next.collections && s.op.field in next.collections[s.op.collectionId].indexes
  {
    hide CreateIndexIn, Mirrors;
    CreateIndexMirrors(st.collections[s.op.collectionId], s.op.field, s.op.kind, s.op.unique);
  }

  /** So nothing is blocked. */
  lemma NothingBlocked(c: Cut, ss: seq<Stamped>, j: nat, k: nat, m: nat)
    requires Setting(c, ss, j, k) && KeepsOlderIndexes(ss, j)
    ensures !Blocked(c, ss, j, m)
  {
    hide WellLogged, KeptIndexesAgree, KeepsOlder, StateAt, ApplyOps, Declared, CreateIndexIn, Mirrors, Created, There, Postings, HasDuplicate, Mixed;
    if Blocked(c, ss, j, m) {
      var s, cid := ss[m], ss[m].op.collectionId;
      assert s.op.CreateIndex? && s.op.unique && Declared(ss[..j], cid);
      CreatedStays(c, ss, j, k, m);
      forall x | x in ss[j..m]
        ensures !DropsIndex(x, cid)
      {
        var i :| 0 <= i < |ss[j..m]| && ss[j..m][i] == x;
        assert ss[j + i] == x;
      }
      NotThere(c, ss[j..m], cid, s.op.field);
      var d := StateAt(ss, m).collections[cid];
      if s.op.field in d.indexes {
        IndexCreated(c, ss, j, k, m, cid, s.op.field);
        assert false;
      }
      NewIndexNoDuplicate(d, s.op.field, s.op.kind, s.op.unique);
      var t := Mixed(c, ss[j..m], cid, d.documents);
      forall id | id in t
        ensures id in d.documents && t[id].document == d.documents[id].document
      {
        DocumentsThere(c, ss, j, k, m, id);
      }
      FewerDuplicates(s.op.kind, s.op.field, s.op.unique, d.documents, t);
    }
  }

  // ---------------------------------------------------------------------------
  // And if the end drops an older collection, it throws
  // ---------------------------------------------------------------------------

  lemma AbsentStep(st: State, s: Stamped, cid: CollectionId)
    requires cid !in st.collections && !Declares(s, cid) && Apply(st, s.op, s.offset).Ok?
    ensures cid !in Apply(st, s.op, s.offset).value.collections && !Drops(s, cid)
  {
    hide PutInto, RemoveFrom, CreateIndexIn, DropIndexIn;
  }

  /** A collection that is not there cannot be dropped. */
  lemma {:induction false} AbsentStays(st: State, suf: seq<Stamped>, cid: CollectionId)
    requires cid !in st.collections && ApplyOps(st, suf).Ok? && forall s :: s in suf ==> !Declares(s, cid)
    ensures cid !in ApplyOps(st, suf).value.collections && forall s :: s in suf ==> !Drops(s, cid)
    decreases |suf|
  {
    hide Apply, Declares, Drops;
    if |suf| > 0 {
      var n := |suf| - 1;
      AbsentStays(st, suf[..n], cid);
      AbsentStep(ApplyOps(st, suf[..n]).value, suf[n], cid);
      assert forall s :: s in suf ==> s in suf[..n] || s == suf[n];
    }
  }

  /** The end drops a collection that the front has declared: reading it over anything without that collection throws. */
  lemma DroppedThrows(c: Cut, ss: seq<Stamped>, j: nat, i: nat)
    requires WellLogged(c.st, ss) && j <= i < |ss| && ss[i].op.DropCollection? && Declared(ss[..j], ss[i].op.collectionId)
    ensures ApplyOps(PartialState(c.st, c.copied, c.mv), ss[j..]).Err?
  {
    hide AllUnique, NamesConsistent, OffsetsIncrease, PartialCollection, Apply, Declared;
    var cid := ss[i].op.collectionId;
    NotAgain(ss, j, cid);
    NextState(ss, i);
    DroppedIsGone(StateAt(ss, i), ss[i]);
    assert ss[..|ss|] == ss;
    GoneStays(ss, i + 1, |ss|, cid);
    assert ss[j..][i - j] == ss[i];
    forall s | s in ss[j..]
      ensures !Declares(s, cid)
    {
      var m :| 0 <= m < |ss[j..]| && ss[j..][m] == s;
      assert ss[j + m] == s;
    }
    assert ss[i] in ss[j..] && Drops(ss[i], cid);
    if ApplyOps(PartialState(c.st, c.copied, c.mv), ss[j..]).Ok? {
      AbsentStays(PartialState(c.st, c.copied, c.mv), ss[j..], cid);
    }
  }

  lemma DroppedIsGone(st: State, s: Stamped)
    requires s.op.DropCollection? && Apply(st, s.op, s.offset).Ok?
    ensures s.op.collectionId !in Apply(st, s.op, s.offset).value.collections
  {
  }

  lemma {:induction false} GoneStays(ss: seq<Stamped>, m: nat, e: nat, cid: CollectionId)
    requires m <= e <= |ss| && ApplyOps(EMPTY, ss).Ok? && ApplyOps(EMPTY, ss[..m]).Ok? && ApplyOps(EMPTY, ss[..e]).Ok?
    requires cid !in StateAt(ss, m).collections && forall i :: m <= i < e ==> !Declares(ss[i], cid)
    ensures cid !in StateAt(ss, e).collections
    decreases e - m
  {
    hide Apply, Traced, AllMirror, StateAt, Declares;
    if m < e {
      NextState(ss, e - 1);
      GoneStays(ss, m, e - 1, cid);
      AbsentStep(StateAt(ss, e - 1), ss[e - 1], cid);
    }
  }
}
