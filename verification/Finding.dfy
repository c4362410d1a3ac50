/** `find`: plan, then a cursor over the planned candidates. What it finds is what a full scan finds. */
module Finding {
  import opened Bytes
  import opened Records
  import opened Storage
  import opened Documents
  import opened Operations
  import opened DatabaseState
  import opened Queries
  import opened Scanning
  import opened Indexes
  import opened Planner
  import opened Backing
  import opened Cache
  import opened Sorting
  import opened Snapshots
  import opened Cursors
  import opened Collections
  import Meaning
  import opened Compiling
  import opened Calls
  import opened LiveReplay
  import Runs
  import CallMeaning

  /** The documents of the candidates. */
  function DocumentsOf(c: Collection, candidates: seq<Candidate>): (ds: seq<Doc>)
    requires forall k :: k in candidates ==> k.id in c.documents
    ensures |ds| == |candidates| && forall i :: 0 <= i < |ds| ==> candidates[i].id in c.documents && ds[i] == c.documents[candidates[i].id].document
  {
    seq(|candidates|, i requires 0 <= i < |candidates| => assert candidates[i] in candidates; c.documents[candidates[i].id].document)
  }

  lemma {:induction false} MatchesAre(lib: Library, query: CompiledQuery, documents: seq<Doc>)
    ensures forall d :: d in Matches(lib, query, documents) <==> d in documents && Evaluate(lib, query, d)
    decreases |documents|
  {
    hide Evaluate;
    if |documents| > 0 {
      MatchesAre(lib, query, documents[1..]);
    }
  }

  /** The matches among the candidates' documents are the documents the plan finds. */
  lemma MatchesArePlanned(lib: Library, c: Collection, query: CompiledQuery, candidates: seq<Candidate>)
    requires forall k :: k in candidates ==> k.id in c.documents
    requires IdsStored(c)
    ensures var found := Matches(lib, query, DocumentsOf(c, candidates));
            && (forall d :: d in found ==> exists id :: id in PlannedFind(lib, c, query, candidates) && c.documents[id].document == d)
            && (forall id :: id in c.documents ==> (c.documents[id].document in found <==> id in PlannedFind(lib, c, query, candidates)))
  {
    hide Evaluate, Matches, Get;
    var ds := DocumentsOf(c, candidates);
    MatchesAre(lib, query, ds);
    forall d | d in Matches(lib, query, ds)
      ensures exists id :: id in PlannedFind(lib, c, query, candidates) && c.documents[id].document == d
    {
      var i :| 0 <= i < |ds| && ds[i] == d;
      assert candidates[i] in candidates;
      assert candidates[i].id in PlannedFind(lib, c, query, candidates);
    }
    forall id | id in PlannedFind(lib, c, query, candidates)
      ensures c.documents[id].document in Matches(lib, query, ds)
    {
      var k :| k in candidates && k.id == id && Evaluate(lib, query, c.documents[k.id].document);
      var i :| 0 <= i < |candidates| && candidates[i] == k;
      assert ds[i] in ds;
    }
    forall id | id in c.documents && c.documents[id].document in Matches(lib, query, ds)
      ensures id in PlannedFind(lib, c, query, candidates)
    {
      var other :| other in PlannedFind(lib, c, query, candidates) && c.documents[other].document == c.documents[id].document;
      assert Get(c.documents[other].document, ID_FIELD) == Some(Text(other));
    }
  }

  /** The live documents that satisfy the query as it was written. */
  ghost function Satisfying(syntax: Meaning.Syntax, lib: Library, c: Collection, query: Meaning.Raw): set<Str> {
    set id | id in c.documents && Meaning.Satisfies(syntax, lib, query, c.documents[id].document)
  }

  /** A look at every document with the compiled query finds what the written one means. */
  lemma MatchingAsWritten(syntax: Meaning.Syntax, lib: Library, c: Collection, query: Meaning.Raw)
    requires CompileQuery(syntax, query).Ok?
    ensures Matching(lib, c, CompileQuery(syntax, query).value) == Satisfying(syntax, lib, c, query)
  {
    hide CompileQuery, Evaluate, Meaning.Satisfies;
    var compiled := CompileQuery(syntax, query).value;
    forall id | id in c.documents
      ensures Evaluate(lib, compiled, c.documents[id].document) <==> Meaning.Satisfies(syntax, lib, query, c.documents[id].document)
    {
      CompileExact(syntax, lib, query, c.documents[id].document);
    }
  }

  /**
   Planned, filtered and found: exactly the documents that satisfy the query as it was written, when nothing was
   missed; and nothing is missed by a query that is typed throughout.
   */
  lemma FoundAsWritten(syntax: Meaning.Syntax, lib: Library, c: Collection, query: Meaning.Raw, candidates: seq<Candidate>, used: Used)
    requires Mirrors(c) && IdsStored(c) && CompileQuery(syntax, query).Ok?
    requires Answers(c.indexes, Offsets(c.documents), candidates, used) && Asks(CompileQuery(syntax, query).value, used)
    ensures var compiled := CompileQuery(syntax, query).value;
            && PlannedFind(lib, c, compiled, candidates) <= Satisfying(syntax, lib, c, query)
            && (NothingMissed(lib, c, compiled, used) <==> PlannedFind(lib, c, compiled, candidates) == Satisfying(syntax, lib, c, query))
            && (TypedQuery(c, compiled) ==> PlannedFind(lib, c, compiled, candidates) == Satisfying(syntax, lib, c, query))
  {
    hide Mirrors, IdsStored, CompileQuery, Answers, Asks, PlannedFind, Matching, NothingMissed, TypedQuery, Satisfying;
    var compiled := CompileQuery(syntax, query).value;
    MatchingAsWritten(syntax, lib, c, query);
    PlannedFindExact(lib, c, compiled, candidates, used);
    if TypedQuery(c, compiled) {
      TypedQueryComplete(lib, c, compiled, candidates, used);
    }
  }

  /** These are the documents of the candidates. */
  ghost predicate Presents(c: Collection, candidates: seq<Candidate>, documents: seq<Doc>) {
    |documents| == |candidates| && forall i :: 0 <= i < |candidates| ==> candidates[i].id in c.documents && documents[i] == c.documents[candidates[i].id].document
  }

  predicate OnceEach(candidates: seq<Candidate>) {
    forall i, j :: 0 <= i < j < |candidates| ==> candidates[i].id != candidates[j].id
  }

  lemma AnsweredOnce(c: Collection, candidates: seq<Candidate>, used: Used)
    requires Answers(c.indexes, Offsets(c.documents), candidates, used)
    ensures used.ByPrimary? || OnceEach(candidates)
  {
    hide Scanned;
  }

  /** The cursor of a query over a live collection, as it was written; an error if it does not compile. */
  method Find(c: PocketCollection, syntax: Meaning.Syntax, query: Meaning.Raw, lib: Library, order: StringOrder, cache: DocumentCache?) returns (result: Result<PocketCursor>, used: Used)
    requires c.Ready() && Mirrors(c.Contents()) && IdsStored(c.Contents())
    requires cache != null ==> cache.Valid() && CacheCurrent(c.encoder, c.storage.bytes, cache.Recency())
    ensures result.Ok? <==> CompileQuery(syntax, query).Ok?
    ensures result.Ok? ==>
              && fresh(result.value) && result.value.Valid() && result.value.storage == c.storage && result.value.cache == cache
              && result.value.Started() && result.value.query == CompileQuery(syntax, query).value && result.value.lib == lib && result.value.order == order
              && Presents(c.Contents(), result.value.candidates, result.value.documents) && (used.ByPrimary? || OnceEach(result.value.candidates))
              && result.value.limitCount == None && result.value.skipCount == 0 && result.value.sortFields == None
              && Asks(CompileQuery(syntax, query).value, used)
    ensures result.Ok? ==>
              forall d :: d in result.value.Remaining() ==> exists id :: id in Satisfying(syntax, lib, c.Contents(), query) && c.documents[id].document == d
    ensures result.Ok? ==>
              ((forall id :: id in Satisfying(syntax, lib, c.Contents(), query) ==> c.documents[id].document in result.value.Remaining())
               <==> NothingMissed(lib, c.Contents(), CompileQuery(syntax, query).value, used))
    ensures result.Ok? && TypedQuery(c.Contents(), CompileQuery(syntax, query).value) ==>
              forall id :: id in Satisfying(syntax, lib, c.Contents(), query) ==> c.documents[id].document in result.value.Remaining()
  {
    hide Evaluate, Backed, Mirrors, IdsStored, Matches, Answers, Asks, NothingMissed, CacheCurrent, Snapshot, PlannedFind, Matching, Satisfying, TypedQuery, CompileQuery;
    ghost var contents := c.Contents();
    PrimaryIs(c);
    used := FullScan;
    var compiled := CompileQueryLoop(syntax, query);
    if compiled.Err? {
      result := Err(compiled.error);
      return;
    }
    var plan := Plan(c.indexManager, c.primaryIndex, compiled.value);
    used := plan.used;
    CandidatesCurrent(contents, plan.candidates, plan.used);
    AnsweredOnce(contents, plan.candidates, plan.used);
    ghost var documents := DocumentsOf(contents, plan.candidates);
    assert forall i :: 0 <= i < |plan.candidates| ==> plan.candidates[i] in plan.candidates;
    SnapshotTaken(c.encoder, c.storage.bytes, c.id, contents.documents, plan.candidates, documents);
    var cursor := new PocketCursor(c.storage, compiled.value, plan.candidates, c.encoder, cache, lib, order, documents);
    result := Ok(cursor);
    MatchesArePlanned(lib, contents, compiled.value, plan.candidates);
    MatchingAsWritten(syntax, lib, contents, query);
    PlannedFindExact(lib, contents, compiled.value, plan.candidates, plan.used);
    if TypedQuery(contents, compiled.value) {
      TypedQueryComplete(lib, contents, compiled.value, plan.candidates, plan.used);
    }
    PlannedLive(lib, contents, compiled.value, plan.candidates);
  }

  lemma PlannedLive(lib: Library, c: Collection, query: CompiledQuery, candidates: seq<Candidate>)
    ensures forall id :: id in PlannedFind(lib, c, query, candidates) || id in Matching(lib, c, query) ==> id in c.documents
  {
    hide Evaluate;
  }

  lemma PrimaryIs(c: PocketCollection)
    requires c.Valid()
    ensures c.primaryIndex == Offsets(c.Contents().documents)
  {
  }

  // ---------------------------------------------------------------------------
  // Calls that change what a query finds
  // ---------------------------------------------------------------------------

  function IdOf(document: Doc): Option<Str> {
    match Get(document, ID_FIELD)
    case Some(Text(id)) => Some(id)
    case _ => None
  }

  /** These ids are of documents that satisfy the query: of all of them if the plan missed nothing, and for a typed query. */
  ghost predicate FindsIds(syntax: Meaning.Syntax, lib: Library, c: Collection, query: Meaning.Raw, used: Used, ids: seq<Str>)
    requires CompileQuery(syntax, query).Ok?
  {
    var compiled := CompileQuery(syntax, query).value;
    && Asks(compiled, used)
    && (forall id :: id in ids ==> id in Satisfying(syntax, lib, c, query))
    && ((forall id :: id in Satisfying(syntax, lib, c, query) ==> id in ids) <==> NothingMissed(lib, c, compiled, used))
    && (TypedQuery(c, compiled) ==> forall id :: id in Satisfying(syntax, lib, c, query) ==> id in ids)
  }

  method CollectIds(documents: seq<Doc>) returns (ids: seq<Str>)
    ensures forall id :: id in ids <==> exists d :: d in documents && IdOf(d) == Some(id)
  {
    hide IdOf;
    ids := [];
    for i := 0 to |documents|
      invariant forall id :: id in ids <==> exists k :: 0 <= k < i && IdOf(documents[k]) == Some(id)
    {
      var id := IdOf(documents[i]);
      if id.Some? {
        ids := ids + [id.value];
      }
    }
  }

  lemma IdsFound(syntax: Meaning.Syntax, lib: Library, c: Collection, query: Meaning.Raw, used: Used, documents: seq<Doc>, ids: seq<Str>)
    requires IdsStored(c) && CompileQuery(syntax, query).Ok? && Asks(CompileQuery(syntax, query).value, used)
    requires forall id :: id in ids <==> exists d :: d in documents && IdOf(d) == Some(id)
    requires forall d :: d in documents ==> exists id :: id in Satisfying(syntax, lib, c, query) && c.documents[id].document == d
    requires (forall id :: id in Satisfying(syntax, lib, c, query) ==> c.documents[id].document in documents)
             <==> NothingMissed(lib, c, CompileQuery(syntax, query).value, used)
    requires TypedQuery(c, CompileQuery(syntax, query).value) ==> forall id :: id in Satisfying(syntax, lib, c, query) ==> c.documents[id].document in documents
    ensures FindsIds(syntax, lib, c, query, used, ids)
  {
    hide Meaning.Satisfies, CompileQuery, Asks, NothingMissed, TypedQuery, Get;
    forall id | id in c.documents
      ensures IdOf(c.documents[id].document) == Some(id)
    {
    }
    forall id | id in Satisfying(syntax, lib, c, query)
      ensures id in ids <==> c.documents[id].document in documents
    {
      if id in ids {
        var d :| d in documents && IdOf(d) == Some(id);
        var other :| other in Satisfying(syntax, lib, c, query) && c.documents[other].document == d;
        assert other == id;
      }
    }
  }

  /** The ids of the documents a query finds. */
  method FindIds(c: PocketCollection, syntax: Meaning.Syntax, query: Meaning.Raw, lib: Library, order: StringOrder, cache: DocumentCache?) returns (ids: Result<seq<Str>>, used: Used)
    requires c.Ready() && Mirrors(c.Contents()) && IdsStored(c.Contents())
    requires cache != null ==> cache.Valid() && CacheCurrent(c.encoder, c.storage.bytes, cache.Recency())
    modifies if cache == null then {} else {cache}
    ensures c.Ready() && c.Contents() == old(c.Contents()) && c.storage.bytes == old(c.storage.bytes)
    ensures ids.Ok? <==> CompileQuery(syntax, query).Ok?
    ensures ids.Ok? ==> FindsIds(syntax, lib, c.Contents(), query, used, ids.value)
  {
    hide Satisfying, CompileQuery, Asks, NothingMissed, TypedQuery, Mirrors, IdsStored, Backed, IdOf, FindsIds, CacheCurrent, PocketCursor.Valid, PocketCursor.Remaining, PocketCursor.Pending, PocketCollection.Ready, PocketCollection.Valid, DocumentCache.Valid;
    var cursor, plan := Find(c, syntax, query, lib, order, cache);
    used := plan;
    if cursor.Err? {
      ids := Err(cursor.error);
      return;
    }
    var documents := cursor.value.ToArray();
    var found := CollectIds(documents);
    IdsFound(syntax, lib, c.Contents(), query, used, documents, found);
    ids := Ok(found);
  }

  /** What the updated documents encode to can be read back. */
  predicate FaithfulUpdate(enc: Encoder, c: Collection, update: Doc -> Result<Doc>) {
    forall id :: id in c.documents && update(c.documents[id].document).Ok? ==> Faithful(enc, Stored(update(c.documents[id].document).value, id).document)
  }

  lemma {:induction false} UpdatesFaithful(enc: Encoder, c: Collection, ids: seq<Str>, update: Doc -> Result<Doc>)
    requires FaithfulUpdate(enc, c, update) && PrepareUpdates(c, ids, update).Ok?
    ensures forall w :: w in PrepareUpdates(c, ids, update).value ==> Faithful(enc, w.document)
    decreases |ids|
  {
    hide Faithful, Stored;
    if |ids| > 0 {
      UpdatesFaithful(enc, c, ids[1..], update);
    }
  }

  /** Every document that satisfies the query has become what the update makes of it, and every other is as it was. */
  ghost predicate UpdatedWhere(syntax: Meaning.Syntax, lib: Library, c: Collection, d: Collection, query: Meaning.Raw, update: Doc -> Result<Doc>) {
    && d.documents.Keys == c.documents.Keys
    && forall id :: id in c.documents ==>
         if Meaning.Satisfies(syntax, lib, query, c.documents[id].document)
         then update(c.documents[id].document).Ok? && CallMeaning.Written(update(c.documents[id].document).value, id, d.documents[id].document)
         else d.documents[id] == c.documents[id]
  }

  lemma UpdateFound(syntax: Meaning.Syntax, lib: Library, c: Collection, d: Collection, query: Meaning.Raw, used: Used, ids: seq<Str>, update: Doc -> Result<Doc>)
    requires CompileQuery(syntax, query).Ok? && FindsIds(syntax, lib, c, query, used, ids) && CallMeaning.UpdatedTo(c, d, ids, update)
    requires NothingMissed(lib, c, CompileQuery(syntax, query).value, used) || TypedQuery(c, CompileQuery(syntax, query).value)
    ensures UpdatedWhere(syntax, lib, c, d, query, update)
  {
    hide Meaning.Satisfies, CompileQuery, Asks, NothingMissed, TypedQuery, CallMeaning.Written;
    forall id | id in c.documents
      ensures id in ids <==> Meaning.Satisfies(syntax, lib, query, c.documents[id].document)
    {
      assert Meaning.Satisfies(syntax, lib, query, c.documents[id].document) ==> id in Satisfying(syntax, lib, c, query);
    }
  }

  lemma UpdateMeans(c: PocketCollection, before: Collection, file: seq<byte>, ids: seq<Str>, update: Doc -> Result<Doc>, thrown: bool)
    requires Runs.Sound(Alone(c.id, before)) && c.Performed(Call.UpdateMany(c.id, ids, update), before, file, thrown)
    ensures thrown <==> CallMeaning.UpdateThrows(before, ids, update) || CallMeaning.UpdatesUnwritable(c.encoder, before, ids, update)
    ensures !thrown ==> CallMeaning.UpdatedTo(before, c.Contents(), ids, update)
  {
    hide Perform, CallMeaning.UpdatedTo, Runs.Sound, CallMeaning.UpdateThrows, CallMeaning.UpdatesUnwritable;
    CallMeaning.UpdateManyMeans(c.encoder, Alone(c.id, before), |file|, c.id, ids, update);
  }

  /**
   The documents a query finds are updated in one checked transaction. When it does not throw, and the plan missed nothing or the
   query is typed throughout, these are exactly the documents that satisfy the query as it was written.
   */
  method UpdateMany(c: PocketCollection, syntax: Meaning.Syntax, query: Meaning.Raw, update: Doc -> Result<Doc>, lib: Library, order: StringOrder, cache: DocumentCache?)
    returns (ok: bool, ids: seq<Str>, used: Used)
    requires c.Ready() && Mirrors(c.Contents()) && IdsStored(c.Contents()) && FaithfulUpdate(c.encoder, c.Contents(), update)
    requires cache != null ==> cache.Valid() && CacheCurrent(c.encoder, c.storage.bytes, cache.Recency())
    modifies c, c.indexManager`indexesByField, c.indexManager.stringRepr, c.indexManager.numberRepr, c.storage, if cache == null then {} else {cache}
    ensures c.Ready() && unchanged(c`dropped)
    ensures c.dropped || CompileQuery(syntax, query).Err? ==> !ok && c.storage.bytes == old(c.storage.bytes) && c.Contents() == old(c.Contents())
    ensures !c.dropped && CompileQuery(syntax, query).Ok? ==>
              && FindsIds(syntax, lib, old(c.Contents()), query, used, ids)
              && c.Performed(Call.UpdateMany(c.id, ids, update), old(c.Contents()), old(c.storage.bytes), !ok)
    ensures !c.dropped && CompileQuery(syntax, query).Ok? && Runs.Sound(Alone(c.id, old(c.Contents()))) ==>
              (!ok <==> CallMeaning.UpdateThrows(old(c.Contents()), ids, update) || CallMeaning.UpdatesUnwritable(c.encoder, old(c.Contents()), ids, update))
    ensures ok && Runs.Sound(Alone(c.id, old(c.Contents()))) ==>
              var compiled := CompileQuery(syntax, query).value;
              && CallMeaning.UpdatedTo(old(c.Contents()), c.Contents(), ids, update)
              && (NothingMissed(lib, old(c.Contents()), compiled, used) || TypedQuery(old(c.Contents()), compiled) ==>
                    UpdatedWhere(syntax, lib, old(c.Contents()), c.Contents(), query, update))
  {
    hide CompileQuery, Mirrors, IdsStored, Backed, FindsIds, CacheCurrent, FaithfulUpdate, Perform, Faithful, Runs.Sound, UpdatedWhere, CallMeaning.UpdatedTo, CallMeaning.UpdateThrows, CallMeaning.UpdatesUnwritable;
    ids, used := [], FullScan;
    if c.dropped {
      return false, ids, used;
    }
    ghost var before := c.Contents();
    var found, plan := FindIds(c, syntax, query, lib, order, cache);
    if found.Err? {
      return false, ids, used;
    }
    ids, used := found.value, plan;
    UpdateSensible(c, ids, update);
    ok := c.UpdateMany(ids, update);
    if Runs.Sound(Alone(c.id, before)) {
      UpdateMeans(c, before, old(c.storage.bytes), ids, update, !ok);
      if ok && (NothingMissed(lib, before, CompileQuery(syntax, query).value, used) || TypedQuery(before, CompileQuery(syntax, query).value)) {
        UpdateFound(syntax, lib, before, c.Contents(), query, used, ids, update);
      }
    }
  }

  lemma UpdateSensible(c: PocketCollection, ids: seq<Str>, update: Doc -> Result<Doc>)
    requires c.Ready() && FaithfulUpdate(c.encoder, c.Contents(), update)
    ensures c.Sensible(Call.UpdateMany(c.id, ids, update))
  {
    hide FaithfulUpdate, Faithful, PrepareUpdates, Backed;
    if PrepareUpdates(c.Contents(), ids, update).Ok? {
      UpdatesFaithful(c.encoder, c.Contents(), ids, update);
    }
  }

  /** Exactly the documents that satisfy the query are gone. */
  ghost predicate DeletedWhere(syntax: Meaning.Syntax, lib: Library, c: Collection, d: Collection, query: Meaning.Raw) {
    && (forall id :: id in d.documents <==> id in c.documents && !Meaning.Satisfies(syntax, lib, query, c.documents[id].document))
    && forall id :: id in d.documents ==> d.documents[id] == c.documents[id]
  }

  lemma DeleteMeans(c: PocketCollection, before: Collection, file: seq<byte>, ids: seq<Str>, thrown: bool)
    requires Runs.Sound(Alone(c.id, before)) && c.Performed(Call.DeleteMany(c.id, ids), before, file, thrown)
    ensures !thrown && CallMeaning.Without(before, c.Contents(), set id | id in ids)
  {
    hide Perform, CallMeaning.Without, Runs.Sound;
    CallMeaning.DeleteManyMeans(c.encoder, Alone(c.id, before), |file|, c.id, ids);
  }

  lemma DeleteFound(syntax: Meaning.Syntax, lib: Library, c: Collection, d: Collection, query: Meaning.Raw, used: Used, ids: seq<Str>)
    requires CompileQuery(syntax, query).Ok? && FindsIds(syntax, lib, c, query, used, ids) && CallMeaning.Without(c, d, set id | id in ids)
    requires NothingMissed(lib, c, CompileQuery(syntax, query).value, used) || TypedQuery(c, CompileQuery(syntax, query).value)
    ensures DeletedWhere(syntax, lib, c, d, query)
  {
    hide Meaning.Satisfies, CompileQuery, Asks, NothingMissed, TypedQuery;
    forall id | id in c.documents
      ensures id in ids <==> Meaning.Satisfies(syntax, lib, query, c.documents[id].document)
    {
      assert Meaning.Satisfies(syntax, lib, query, c.documents[id].document) ==> id in Satisfying(syntax, lib, c, query);
    }
  }

  /** The documents a query finds are deleted in one transaction; all that satisfy it, under the same conditions. */
  method DeleteMany(c: PocketCollection, syntax: Meaning.Syntax, query: Meaning.Raw, lib: Library, order: StringOrder, cache: DocumentCache?)
    returns (ok: bool, ids: seq<Str>, used: Used)
    requires c.Ready() && Mirrors(c.Contents()) && IdsStored(c.Contents())
    requires cache != null ==> cache.Valid() && CacheCurrent(c.encoder, c.storage.bytes, cache.Recency())
    modifies c, c.indexManager`indexesByField, c.indexManager.stringRepr, c.indexManager.numberRepr, c.storage, if cache == null then {} else {cache}
    ensures c.Ready() && unchanged(c`dropped)
    ensures c.dropped || CompileQuery(syntax, query).Err? ==> !ok && c.storage.bytes == old(c.storage.bytes) && c.Contents() == old(c.Contents())
    ensures !c.dropped && CompileQuery(syntax, query).Ok? ==>
              && FindsIds(syntax, lib, old(c.Contents()), query, used, ids)
              && c.Performed(Call.DeleteMany(c.id, ids), old(c.Contents()), old(c.storage.bytes), !ok)
    ensures !c.dropped && CompileQuery(syntax, query).Ok? && Runs.Sound(Alone(c.id, old(c.Contents()))) ==>
              var compiled := CompileQuery(syntax, query).value;
              && ok && CallMeaning.Without(old(c.Contents()), c.Contents(), set id | id in ids)
              && (NothingMissed(lib, old(c.Contents()), compiled, used) || TypedQuery(old(c.Contents()), compiled) ==>
                    DeletedWhere(syntax, lib, old(c.Contents()), c.Contents(), query))
  {
    hide CompileQuery, Mirrors, IdsStored, Backed, FindsIds, CacheCurrent, Perform, Runs.Sound, DeletedWhere, CallMeaning.Without;
    ghost var before := c.Contents();
    ids, used := [], FullScan;
    if c.dropped {
      return false, ids, used;
    }
    var found, plan := FindIds(c, syntax, query, lib, order, cache);
    if found.Err? {
      return false, ids, used;
    }
    ids, used := found.value, plan;
    ok := c.DeleteMany(ids);
    if Runs.Sound(Alone(c.id, before)) {
      DeleteMeans(c, before, old(c.storage.bytes), ids, !ok);
      if NothingMissed(lib, before, CompileQuery(syntax, query).value, used) || TypedQuery(before, CompileQuery(syntax, query).value) {
        DeleteFound(syntax, lib, before, c.Contents(), query, used, ids);
      }
    }
  }
}
