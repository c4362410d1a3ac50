/**
 What a database holds in memory, and how one operation changes it. A collection's documents
 carry the file offset of their current version; each secondary index holds, by document,
 the indexed value and that offset.
 */
module DatabaseState {
  import opened Bytes
  import opened Documents
  import opened Payloads
  import opened Operations

  /** A value under which an index files a document: a string, or a finite number by its key. */
  datatype Key = StringKey(s: Str) | NumberKey(key: int)

  datatype Posting = Posting(key: Key, offset: nat)

  datatype Index = Index(kind: IndexKind, unique: bool, postings: map<Str, Posting>)

  datatype Entry = Entry(offset: nat, document: Doc)

  datatype Collection = Collection(name: Str, documents: map<Str, Entry>, indexes: map<Str, Index>)

  datatype State = State(collections: map<CollectionId, Collection>, names: map<Str, CollectionId>)

  const EMPTY: State := State(map[], map[])

  // ---------------------------------------------------------------------------
  // Indexes
  // ---------------------------------------------------------------------------

  /** Only strings enter a string index, only finite numbers a number index. */
  function IndexKey(kind: IndexKind, value: Option<Value>): Option<Key> {
    match (kind, value)
    case (Strings, Some(Text(s))) => Some(StringKey(s))
    case (Numbers, Some(Numeric(n))) => if n.Finite() then Some(NumberKey(n.key)) else None
    case _ => None
  }

  function KeyOf(kind: IndexKind, field: Str, document: Doc): Option<Key> {
    IndexKey(kind, Get(document, field))
  }

  function AddPosting(index: Index, field: Str, id: Str, entry: Entry): Index {
    var key := KeyOf(index.kind, field, entry.document);
    if key.Some? then index.(postings := index.postings[id := Posting(key.value, entry.offset)]) else index
  }

  function RemovePosting(index: Index, id: Str): Index {
    index.(postings := index.postings - {id})
  }

  function UpdatePosting(index: Index, field: Str, id: Str, entry: Entry): Index {
    AddPosting(RemovePosting(index, id), field, id, entry)
  }

  /** What an index on `field` holds for these documents. */
  function Postings(kind: IndexKind, field: Str, documents: map<Str, Entry>): map<Str, Posting> {
    map id | id in documents && KeyOf(kind, field, documents[id].document).Some? ::
      Posting(KeyOf(kind, field, documents[id].document).value, documents[id].offset)
  }

  /** Every index holds exactly the documents of its type, under their value, at their current offset. */
  predicate Mirrors(c: Collection) {
    forall f :: f in c.indexes ==> c.indexes[f].postings == Postings(c.indexes[f].kind, f, c.documents)
  }

  predicate HasDuplicate(index: Index) {
    exists i, j :: i in index.postings && j in index.postings && i != j && index.postings[i].key == index.postings[j].key
  }

  /** No two documents hold the same value under a unique index. */
  predicate UniqueHolds(c: Collection) {
    forall f, i, j :: f in c.indexes && c.indexes[f].unique && i in c.documents && j in c.documents && i != j ==>
      var k := c.indexes[f].kind;
      var ki, kj := KeyOf(k, f, c.documents[i].document), KeyOf(k, f, c.documents[j].document);
      ki.None? || kj.None? || ki != kj
  }

  /** Every name belongs to one collection, and every collection to its name. */
  predicate NamesConsistent(st: State) {
    && (forall n :: n in st.names ==> st.names[n] in st.collections && st.collections[st.names[n]].name == n)
    && (forall cid :: cid in st.collections ==> st.collections[cid].name in st.names && st.names[st.collections[cid].name] == cid)
  }

  // ---------------------------------------------------------------------------
  // Changes to one collection
  // ---------------------------------------------------------------------------

  function PutInto(c: Collection, id: Str, entry: Entry): Collection {
    c.(documents := c.documents[id := entry],
       indexes := map f | f in c.indexes :: UpdatePosting(c.indexes[f], f, id, entry))
  }

  function RemoveFrom(c: Collection, id: Str): Collection {
    c.(documents := c.documents - {id},
       indexes := map f | f in c.indexes :: RemovePosting(c.indexes[f], id))
  }

  /** Every document is filed again in every index. */
  function Refile(index: Index, field: Str, documents: map<Str, Entry>): Index {
    index.(postings := (index.postings - documents.Keys) + Postings(index.kind, field, documents))
  }

  function RefileAll(c: Collection): Collection {
    c.(indexes := map f | f in c.indexes :: Refile(c.indexes[f], f, c.documents))
  }

  function CreateIndexIn(c: Collection, field: Str, kind: IndexKind, unique: bool): Result<Collection> {
    if |field| == 0 then Err("Index field cannot be empty.")
    else if field in c.indexes then
      if c.indexes[field].kind != kind then Err("Index already exists with another type.")
      else if c.indexes[field].unique != unique then Err("Index already exists with another unique flag.")
      else Ok(RefileAll(c))
    else
      var filled := RefileAll(c.(indexes := c.indexes[field := Index(kind, unique, map[])]));
      if unique && HasDuplicate(filled.indexes[field]) then Err("Cannot create unique index: documents share the same value.")
      else Ok(filled)
  }

  function DropIndexIn(c: Collection, field: Str): Result<Collection> {
    if field !in c.indexes then Err("No index exists on this field.") else Ok(c.(indexes := c.indexes - {field}))
  }

  // ---------------------------------------------------------------------------
  // Changes to the database, as replay applies them
  // ---------------------------------------------------------------------------

  function WithCollection(st: State, id: CollectionId, c: Collection): State {
    st.(collections := st.collections[id := c])
  }

  function Apply(st: State, op: Operation, offset: nat): Result<State> {
    match op
    case NewCollection(id, name) =>
      Ok(State(st.collections[id := Collection(name, map[], map[])], st.names[name := id]))
    case PutDocument(cid, id, document) =>
      if cid !in st.collections then Err("Invalid put document operation: unknown collection identifier.")
      else Ok(WithCollection(st, cid, PutInto(st.collections[cid], id, Entry(offset, document))))
    case CreateIndex(cid, field, kind, unique) =>
      if cid !in st.collections then Err("Invalid create index operation: unknown collection identifier.")
      else
        var c :- CreateIndexIn(st.collections[cid], field, kind, unique);
        Ok(WithCollection(st, cid, c))
    case DeleteDocument(cid, id) =>
      if cid !in st.collections then Err("Invalid delete document operation: unknown collection identifier.")
      else Ok(WithCollection(st, cid, RemoveFrom(st.collections[cid], id)))
    case DropCollection(cid) =>
      if cid !in st.collections then Err("Invalid drop collection operation: unknown collection identifier.")
      else Ok(State(st.collections - {cid}, st.names - {st.collections[cid].name}))
    case DropIndex(cid, field) =>
      if cid !in st.collections then Err("Invalid drop index operation: unknown collection identifier.")
      else
        var c :- DropIndexIn(st.collections[cid], field);
        Ok(WithCollection(st, cid, c))
    case Hole => Ok(st)
    case TransactionBegin => Err("Unsupported operation identifier.")
    case TransactionCommit => Err("Unsupported operation identifier.")
  }

  // ---------------------------------------------------------------------------
  // Indexes mirror the documents after every operation
  // ---------------------------------------------------------------------------

  predicate AllMirror(st: State) {
    forall cid :: cid in st.collections ==> Mirrors(st.collections[cid])
  }

  lemma PutMirrors(c: Collection, id: Str, entry: Entry)
    requires Mirrors(c)
    ensures Mirrors(PutInto(c, id, entry))
  {
    hide KeyOf;
    var d := PutInto(c, id, entry);
    forall f | f in d.indexes
      ensures d.indexes[f].postings == Postings(d.indexes[f].kind, f, d.documents)
    {
      assert c.indexes[f].postings == Postings(c.indexes[f].kind, f, c.documents);
    }
  }

  lemma RemoveMirrors(c: Collection, id: Str)
    requires Mirrors(c)
    ensures Mirrors(RemoveFrom(c, id))
  {
    hide KeyOf;
    var d := RemoveFrom(c, id);
    forall f | f in d.indexes
      ensures d.indexes[f].postings == Postings(d.indexes[f].kind, f, d.documents)
    {
      assert c.indexes[f].postings == Postings(c.indexes[f].kind, f, c.documents);
    }
  }

  lemma RefileOne(index: Index, field: Str, documents: map<Str, Entry>)
    requires index.postings.Keys <= documents.Keys
    ensures Refile(index, field, documents) == index.(postings := Postings(index.kind, field, documents))
  {
    hide KeyOf;
    assert (index.postings - documents.Keys).Keys == {};
  }

  /** Filing again changes nothing in indexes that mirror the documents. */
  lemma RefileKeeps(c: Collection)
    requires Mirrors(c)
    ensures RefileAll(c) == c
  {
    forall f | f in c.indexes
      ensures Refile(c.indexes[f], f, c.documents) == c.indexes[f]
    {
      PostingsWithin(c.indexes[f].kind, f, c.documents);
      hide Postings, Refile;
      RefileOne(c.indexes[f], f, c.documents);
    }
    assert RefileAll(c).indexes == c.indexes by {
      hide Refile;
    }
  }

  lemma PostingsWithin(kind: IndexKind, field: Str, documents: map<Str, Entry>)
    ensures Postings(kind, field, documents).Keys <= documents.Keys
  {
  }

  /** Creating an index adds one that mirrors the documents and leaves the others alone. */
  lemma CreateIndexMirrors(c: Collection, field: Str, kind: IndexKind, unique: bool)
    requires Mirrors(c) && CreateIndexIn(c, field, kind, unique).Ok?
    ensures var d := CreateIndexIn(c, field, kind, unique).value;
            && Mirrors(d) && d.documents == c.documents && d.name == c.name
            && d.indexes == c.indexes[field := Index(kind, unique, Postings(kind, field, c.documents))]
  {
    hide Postings, Refile;
    if field in c.indexes {
      RefileKeeps(c);
      assert c.indexes[field] == Index(kind, unique, Postings(kind, field, c.documents));
      assert c.indexes == c.indexes[field := c.indexes[field]];
    } else {
      NewIndexMirrors(c, field, kind, unique);
    }
  }

  lemma NewIndexMirrors(c: Collection, field: Str, kind: IndexKind, unique: bool)
    requires Mirrors(c) && field !in c.indexes
    ensures RefileAll(c.(indexes := c.indexes[field := Index(kind, unique, map[])]))
         == c.(indexes := c.indexes[field := Index(kind, unique, Postings(kind, field, c.documents))])
  {
    hide Postings, Refile;
    var e := c.(indexes := c.indexes[field := Index(kind, unique, map[])]);
    forall f | f in e.indexes
      ensures Refile(e.indexes[f], f, c.documents) == e.indexes[f].(postings := Postings(e.indexes[f].kind, f, c.documents))
    {
      PostingsWithin(e.indexes[f].kind, f, c.documents);
      RefileOne(e.indexes[f], f, c.documents);
    }
    var d := c.indexes[field := Index(kind, unique, Postings(kind, field, c.documents))];
    assert RefileAll(e).indexes.Keys == d.Keys;
    assert forall f :: f in d ==> RefileAll(e).indexes[f] == d[f];
    assert RefileAll(e).indexes == d;
  }

  /** In every state an operation leads to, the indexes mirror the documents. */
  lemma ApplyMirrors(st: State, op: Operation, offset: nat)
    requires AllMirror(st) && Apply(st, op, offset).Ok?
    ensures AllMirror(Apply(st, op, offset).value)
  {
    hide Mirrors, PutInto, RemoveFrom, CreateIndexIn;
    match op
    case NewCollection(_, name) => EmptyMirrors(name);
    case PutDocument(cid, id, document) => PutMirrors(st.collections[cid], id, Entry(offset, document));
    case DeleteDocument(cid, id) => RemoveMirrors(st.collections[cid], id);
    case CreateIndex(cid, field, kind, unique) => CreateIndexMirrors(st.collections[cid], field, kind, unique);
    case DropIndex(cid, field) => DropIndexMirrors(st.collections[cid], field);
    case _ =>
  }

  lemma EmptyMirrors(name: Str)
    ensures Mirrors(Collection(name, map[], map[]))
  {
  }

  lemma DropIndexMirrors(c: Collection, field: Str)
    requires Mirrors(c)
    ensures Mirrors(c.(indexes := c.indexes - {field}))
  {
  }
}
