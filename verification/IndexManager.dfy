/**
 The indexes of one collection, and the unique constraints checked against them before a write.
 Each is an object that keeps its buckets and the values by document linked.
 */
module Manager {
  import opened Bytes
  import opened Documents
  import opened Payloads
  import opened Operations
  import opened DatabaseState
  import opened Queries
  import opened Scanning
  import opened Indexes
  import opened Calls

  /** Some indexes without the documents they index. */
  function Only(indexes: map<Str, Index>): Collection {
    Collection([], map[], indexes)
  }

  /** An index of either kind. */
  datatype AnyIndex = OfStrings(s: StringIndex) | OfNumbers(n: NumberIndex) {
    function Field(): Str {
      if OfStrings? then s.field else n.field
    }

    function Kind(): IndexKind {
      if OfStrings? then Strings else IndexKind.Numbers
    }

    function Unique(): bool {
      if OfStrings? then s.unique else n.unique
    }

    ghost function Owner(): CollectionId {
      if OfStrings? then s.owner else n.owner
    }

    ghost function StringObject(): set<StringIndex> {
      if OfStrings? then {s} else {}
    }

    ghost function NumberObject(): set<NumberIndex> {
      if OfNumbers? then {n} else {}
    }

    /** The object is in order and holds these contents. */
    ghost predicate Holds(contents: Index)
      reads StringObject(), NumberObject()
    {
      contents.kind == Kind() && contents.unique == Unique()
      && if OfStrings? then s.Valid() && s.Contents() == contents else n.Valid() && n.Contents() == contents
    }
  }

  method NewIndex(ghost owner: CollectionId, field: Str, kind: IndexKind, unique: bool) returns (index: AnyIndex)
    ensures fresh(index.StringObject()) && fresh(index.NumberObject()) && index.Owner() == owner && index.Field() == field && index.Holds(Index(kind, unique, map[]))
  {
    if kind.Strings? {
      var strings := new StringIndex(owner, field, unique);
      index := AnyIndex.OfStrings(strings);
    } else {
      var numbers := new NumberIndex(owner, field, unique);
      index := AnyIndex.OfNumbers(numbers);
    }
  }

  method Update(index: AnyIndex, document: Doc, candidate: Candidate, ghost contents: Index)
    requires index.Holds(contents)
    modifies index.StringObject(), index.NumberObject()
    ensures index.Holds(UpdatePosting(contents, index.Field(), candidate.id, Entry(candidate.offset, document)))
  {
    hide KeyOf;
    match index
    case OfStrings(s) => s.Update(document, candidate);
    case OfNumbers(n) => n.Update(document, candidate);
  }

  method Remove(index: AnyIndex, id: Str, ghost contents: Index)
    requires index.Holds(contents)
    modifies index.StringObject(), index.NumberObject()
    ensures index.Holds(RemovePosting(contents, id))
  {
    match index
    case OfStrings(s) => s.Remove(id);
    case OfNumbers(n) => n.Remove(id);
  }

  method ClearContents(index: AnyIndex, ghost contents: Index)
    requires index.Holds(contents)
    modifies index.StringObject(), index.NumberObject()
    ensures index.Holds(contents.(postings := map[]))
  {
    match index
    case OfStrings(s) => s.ClearContents();
    case OfNumbers(n) => n.ClearContents();
  }

  /** Each field has an index object of its own, and all of them belong to this collection. */
  ghost predicate Arranged(owner: CollectionId, indexes: map<Str, AnyIndex>, strings: set<StringIndex>, numbers: set<NumberIndex>) {
    && (forall x :: x in strings ==> x.owner == owner) && (forall x :: x in numbers ==> x.owner == owner)
    && forall f :: f in indexes ==> indexes[f].Field() == f && indexes[f].StringObject() <= strings && indexes[f].NumberObject() <= numbers
  }

  lemma ArrangedMore(owner: CollectionId, indexes: map<Str, AnyIndex>, strings: set<StringIndex>, numbers: set<NumberIndex>, index: AnyIndex)
    requires Arranged(owner, indexes, strings, numbers) && index.Owner() == owner
    ensures Arranged(owner, indexes[index.Field() := index], strings + index.StringObject(), numbers + index.NumberObject())
  {
  }

  class IndexManager {
    ghost const owner: CollectionId
    var indexes: map<Str, AnyIndex>
    ghost var indexesByField: map<Str, Index>  // what they hold
    ghost var stringRepr: set<StringIndex>     // the index objects
    ghost var numberRepr: set<NumberIndex>

    ghost predicate Shaped()
      reads this
    {
      indexes.Keys == indexesByField.Keys && Arranged(owner, indexes, stringRepr, numberRepr)
    }

    /** And each holds what is recorded of it. */
    ghost predicate Filled()
      requires Shaped()
      reads this, stringRepr, numberRepr
    {
      forall f :: f in indexes ==> indexes[f].Holds(indexesByField[f])
    }

    ghost predicate Valid()
      reads this, stringRepr, numberRepr
    {
      Shaped() && Filled()
    }

    /** New index objects are new. */
    twostate predicate Grown()
      reads this
    {
      old(stringRepr) <= stringRepr && old(numberRepr) <= numberRepr && fresh(stringRepr - old(stringRepr)) && fresh(numberRepr - old(numberRepr))
    }

    constructor (ghost owner: CollectionId)
      ensures Valid() && indexesByField == map[] && stringRepr == {} && numberRepr == {} && this.owner == owner
    {
      this.owner := owner;
      indexes, indexesByField, stringRepr, numberRepr := map[], map[], {}, {};
    }

    lemma ExistingIs(f: Str)
      requires Valid() && f in indexesByField
      ensures f in indexes && indexesByField[f].kind == indexes[f].Kind() && indexesByField[f].unique == indexes[f].Unique()
    {
    }

    method Register(index: AnyIndex, ghost contents: Index)
      requires Valid() && index.Field() !in indexesByField && index.Owner() == owner && index.Holds(contents)
      modifies this
      ensures Valid() && indexesByField == old(indexesByField)[index.Field() := contents]
      ensures stringRepr == old(stringRepr) + index.StringObject() && numberRepr == old(numberRepr) + index.NumberObject()
    {
      hide AnyIndex.Holds;
      ArrangedMore(owner, indexes, stringRepr, numberRepr, index);
      indexes, indexesByField := indexes[index.Field() := index], indexesByField[index.Field() := contents];
      stringRepr, numberRepr := stringRepr + index.StringObject(), numberRepr + index.NumberObject();
      forall f | f in indexes
        ensures f in indexesByField && indexes[f].Holds(indexesByField[f])
      {
        if f != index.Field() {
          assert old(indexes[f].Holds(indexesByField[f]));
        }
      }
    }

    /** An existing index must have the same type and the same unique flag; a new one starts empty. */
    method CreateIndex(field: Str, kind: IndexKind, unique: bool) returns (ok: bool)
      requires Valid()
      modifies this
      ensures Valid() && Grown()
      ensures field in old(indexesByField) ==>
                indexesByField == old(indexesByField)
                && (ok <==> indexesByField[field].kind == kind && indexesByField[field].unique == unique)
      ensures field !in old(indexesByField) ==> ok && indexesByField == old(indexesByField)[field := Index(kind, unique, map[])]
    {
      hide AnyIndex.Holds;
      if field in indexes {
        ExistingIs(field);
        return indexes[field].Kind() == kind && indexes[field].Unique() == unique;
      }
      var index := NewIndex(owner, field, kind, unique);
      Register(index, Index(kind, unique, map[]));
      return true;
    }

    function Fields(): (fields: set<Str>)
      requires Valid()
      reads this, stringRepr, numberRepr
      ensures fields == indexesByField.Keys
    {
      indexes.Keys
    }

    predicate IsUnique(f: Str)
      requires Valid() && f in indexesByField
      reads this, stringRepr, numberRepr
      ensures IsUnique(f) == indexesByField[f].unique
    {
      indexes[f].Unique()
    }

    function KindOf(f: Str): (kind: IndexKind)
      requires Valid() && f in indexesByField
      reads this, stringRepr, numberRepr
      ensures kind == indexesByField[f].kind
    {
      indexes[f].Kind()
    }

    method RemoveIndex(field: Str) returns (ok: bool)
      requires Valid()
      modifies this
      ensures Valid() && unchanged(`stringRepr, `numberRepr)
      ensures ok <==> field in old(indexesByField)
      ensures indexesByField == old(indexesByField) - {field}
    {
      hide AnyIndex.Holds;
      ok := field in indexes;
      indexes, indexesByField := indexes - {field}, indexesByField - {field};
    }

    method Clear()
      requires Valid()
      modifies this
      ensures Valid() && indexesByField == map[] && unchanged(`stringRepr, `numberRepr)
    {
      indexes, indexesByField := map[], map[];
    }
  
    method UpdateOne(f: Str, document: Doc, candidate: Candidate)
      requires Valid() && f in indexesByField
      modifies this`indexesByField, stringRepr, numberRepr
      ensures Valid() && indexesByField == old(indexesByField)[f := UpdatePosting(old(indexesByField[f]), f, candidate.id, Entry(candidate.offset, document))]
    {
      hide UpdatePosting, AnyIndex.Holds;
      Update(indexes[f], document, candidate, indexesByField[f]);
      indexesByField := indexesByField[f := UpdatePosting(indexesByField[f], f, candidate.id, Entry(candidate.offset, document))];
    }

    /** Files the document again in every index. */
    method UpdateDocument(document: Doc, id: Str, offset: nat)
      requires Valid()
      modifies this`indexesByField, stringRepr, numberRepr
      ensures Valid()
      ensures indexesByField == UpdatedIndexes(old(indexesByField), id, Entry(offset, document))
    {
      hide UpdatePosting, Valid;
      ghost var before := indexesByField;
      var rest := Fields();
      while rest != {}
        invariant Valid() && rest <= before.Keys == indexesByField.Keys
        invariant forall f :: f in before ==>
                    indexesByField[f] == if f in rest then before[f] else UpdatePosting(before[f], f, id, Entry(offset, document))
        decreases |rest|
      {
        var f :| f in rest;
        UpdateOne(f, document, Candidate(id, offset));
        rest := rest - {f};
      }
    }

    method RemoveOne(f: Str, id: Str)
      requires Valid() && f in indexesByField
      modifies this`indexesByField, stringRepr, numberRepr
      ensures Valid() && indexesByField == old(indexesByField)[f := RemovePosting(old(indexesByField[f]), id)]
    {
      hide RemovePosting, AnyIndex.Holds;
      Remove(indexes[f], id, indexesByField[f]);
      indexesByField := indexesByField[f := RemovePosting(indexesByField[f], id)];
    }

    method RemoveDocument(id: Str)
      requires Valid()
      modifies this`indexesByField, stringRepr, numberRepr
      ensures Valid() && indexesByField == RemovedIndexes(old(indexesByField), id)
    {
      hide RemovePosting, Valid;
      ghost var before := indexesByField;
      var rest := Fields();
      while rest != {}
        invariant Valid() && rest <= before.Keys == indexesByField.Keys
        invariant forall f :: f in before ==> indexesByField[f] == if f in rest then before[f] else RemovePosting(before[f], id)
        decreases |rest|
      {
        var f :| f in rest;
        RemoveOne(f, id);
        rest := rest - {f};
      }
    }

    method ClearOne(f: Str)
      requires Valid() && f in indexesByField
      modifies this`indexesByField, stringRepr, numberRepr
      ensures Valid() && indexesByField == old(indexesByField)[f := old(indexesByField[f]).(postings := map[])]
    {
      hide AnyIndex.Holds;
      ClearContents(indexes[f], indexesByField[f]);
      indexesByField := indexesByField[f := indexesByField[f].(postings := map[])];
    }

    method ClearAllIndexContents()
      requires Valid()
      modifies this`indexesByField, stringRepr, numberRepr
      ensures Valid() && indexesByField == EmptiedIndexes(old(indexesByField))
    {
      hide Valid;
      ghost var before := indexesByField;
      var rest := Fields();
      while rest != {}
        invariant Valid() && rest <= before.Keys == indexesByField.Keys
        invariant forall f :: f in before ==> indexesByField[f] == if f in rest then before[f] else before[f].(postings := map[])
        decreases |rest|
      {
        var f :| f in rest;
        ClearOne(f);
        rest := rest - {f};
      }
    }

    // -------------------------------------------------------------------------
    // Questions to one index
    // -------------------------------------------------------------------------

    method FindOwner(f: Str, document: Doc, exclude: Option<Str>) returns (owned: bool)
      requires Valid() && f in indexesByField
      ensures owned <==> KeyOf(indexesByField[f].kind, f, document).Some? && Owned(indexesByField[f], KeyOf(indexesByField[f].kind, f, document).value, exclude)
    {
      hide KeyOf, Owned;
      match indexes[f] {
      case OfStrings(s) =>
        var found := s.FindOwner(document, exclude);
        return found.Some?;
      case OfNumbers(n) =>
        var found := n.FindOwner(document, exclude);
        return found.Some?;
      }
    }

    method FindDuplicate(f: Str) returns (duplicate: bool)
      requires Valid() && f in indexesByField
      ensures duplicate <==> HasDuplicate(indexesByField[f])
    {
      hide HasDuplicate;
      match indexes[f]
      case OfStrings(s) => duplicate := s.FindDuplicate();
      case OfNumbers(n) => duplicate := n.FindDuplicate();
    }

    /** What the index on the predicate's field answers, if there is one. */
    method Scan(f: Str, operators: seq<FieldOperator>) returns (result: Option<seq<Candidate>>)
      requires Valid()
      ensures result.Some? <==> f in indexesByField && Scanned(indexesByField[f], operators).Some?
      ensures result.Some? ==> Lists(result.value, Scanned(indexesByField[f], operators).value)
    {
      hide Scanned, Lists;
      if f !in indexes {
        return None;
      }
      match indexes[f]
      case OfStrings(s) => result := s.Scan(f, operators);
      case OfNumbers(n) => result := n.Scan(f, operators);
    }

    // -------------------------------------------------------------------------
    // Unique constraints
    // -------------------------------------------------------------------------

    /** False when the source throws: another document holds a value of this one under a unique index. */
    method AssertUnique(document: Doc, exclude: Option<Str>) returns (ok: bool)
      requires Valid()
      ensures ok <==> Free(Only(indexesByField), document, exclude)
    {
      hide KeyOf, Owned, Valid;
      var rest := Fields();
      while rest != {}
        invariant rest <= indexesByField.Keys
        invariant forall f :: f in indexesByField && f !in rest && indexesByField[f].unique ==>
                    var key := KeyOf(indexesByField[f].kind, f, document);
                    key.None? || !Owned(indexesByField[f], key.value, exclude)
        decreases |rest|
      {
        var f :| f in rest;
        rest := rest - {f};
        if IsUnique(f) {
          var owned := FindOwner(f, document, exclude);
          if owned {
            return false;
          }
        }
      }
      return true;
    }

    /** The same for documents written together, which also must not collide with each other. */
    method AssertUniqueBatch(writes: seq<Write>) returns (ok: bool)
      requires Valid()
      ensures ok <==> BatchFree(Only(indexesByField), writes)
    {
      hide FieldFree, Valid;
      var rest := Fields();
      while rest != {}
        invariant rest <= indexesByField.Keys
        invariant forall f :: f in indexesByField && f !in rest && indexesByField[f].unique ==> FieldFree(indexesByField[f], f, writes)
        decreases |rest|
      {
        var f :| f in rest;
        rest := rest - {f};
        if IsUnique(f) {
          var free := FreeUnder(f, KindOf(f), writes);
          if !free {
            return false;
          }
        }
      }
      return true;
    }

    /** One index against a batch: owners in the index, then owners earlier in the batch. */
    method FreeUnder(field: Str, kind: IndexKind, writes: seq<Write>) returns (free: bool)
      requires Valid() && field in indexesByField && indexesByField[field].kind == kind
      ensures free <==> FieldFree(indexesByField[field], field, writes)
    {
      hide KeyOf, Owned, Valid;
      var seenInBatch: map<Key, Str> := map[];
      ghost var index := indexesByField[field];
      for i := 0 to |writes|
        invariant FieldFree(index, field, writes[..i])
        invariant forall k :: 0 <= k < i && KeyOf(kind, field, writes[k].document).Some? ==>
                    var key := KeyOf(kind, field, writes[k].document).value;
                    key in seenInBatch && seenInBatch[key] == writes[k].id
        invariant forall key :: key in seenInBatch ==>
                    exists k :: 0 <= k < i && KeyOf(kind, field, writes[k].document) == Some(key) && seenInBatch[key] == writes[k].id
      {
        var value := KeyOf(kind, field, writes[i].document);
        if value.Some? {
          var owned := FindOwner(field, writes[i].document, Some(writes[i].id));
          if owned {
            return false;
          }
          if value.value in seenInBatch && seenInBatch[value.value] != writes[i].id {
            return false;
          }
          seenInBatch := seenInBatch[value.value := writes[i].id];
        }
        assert writes[..i + 1] == writes[..i] + [writes[i]];
      }
      assert writes[..|writes|] == writes;
      return true;
    }
  }

  function UpdatedIndexes(indexes: map<Str, Index>, id: Str, entry: Entry): map<Str, Index> {
    map f | f in indexes :: UpdatePosting(indexes[f], f, id, entry)
  }

  function RemovedIndexes(indexes: map<Str, Index>, id: Str): map<Str, Index> {
    map f | f in indexes :: RemovePosting(indexes[f], id)
  }

  function EmptiedIndexes(indexes: map<Str, Index>): map<Str, Index> {
    map f | f in indexes :: indexes[f].(postings := map[])
  }
}
