/**
 The cursor over a snapshot of candidates: filter, skip, limit, sort, with documents read one by
 one, from one range read, or from the cache. What it returns does not depend on which.
 */
module Cursors {
  import opened Bytes
  import opened Records
  import opened LogScan
  import opened Storage
  import opened Documents
  import opened Operations
  import opened DatabaseState
  import opened Queries
  import opened Indexes
  import opened Backing
  import opened Cache
  import opened Sorting
  import opened Ranking
  import opened Snapshots

  const SCAN_PRELOAD_THRESHOLD: nat := 2
  const MAX_PER_RECORD_READS_BEFORE_BULK_ESCALATION: nat := 256

  /** Not decided yet, decided against, or read. */
  datatype BulkRange = Undecided | Declined | Loaded(buffer: seq<byte>, rangeStart: nat)

  function Matches(lib: Library, query: CompiledQuery, documents: seq<Doc>): seq<Doc> {
    if |documents| == 0 then []
    else (if Evaluate(lib, query, documents[0]) then [documents[0]] else []) + Matches(lib, query, documents[1..])
  }

  function DropFirst(n: nat, documents: seq<Doc>): seq<Doc> {
    if n >= |documents| then [] else documents[n..]
  }

  function TakeFirst(n: nat, documents: seq<Doc>): seq<Doc> {
    if n >= |documents| then documents else documents[..n]
  }

  /** Drop what is still to be skipped, then take what the limit still allows. */
  function Window(pending: seq<Doc>, skip: nat, skipped: nat, limit: Option<nat>, returned: nat): seq<Doc> {
    var dropped := DropFirst(if skip > skipped then skip - skipped else 0, pending);
    if limit.None? then dropped else TakeFirst(if limit.value > returned then limit.value - returned else 0, dropped)
  }

  lemma MatchesNext(lib: Library, query: CompiledQuery, documents: seq<Doc>, i: nat)
    requires i < |documents|
    ensures Matches(lib, query, documents[i..])
         == (if Evaluate(lib, query, documents[i]) then [documents[i]] else []) + Matches(lib, query, documents[i + 1..])
  {
    hide Evaluate;
    assert documents[i..][1..] == documents[i + 1..];
  }

  lemma {:induction false} MatchesAll(lib: Library, query: CompiledQuery, documents: seq<Doc>)
    requires IsMatchAll(query)
    ensures Matches(lib, query, documents) == documents
    decreases |documents|
  {
    if |documents| > 0 {
      MatchesAll(lib, query, documents[1..]);
      assert documents == [documents[0]] + documents[1..];
    }
  }

  lemma {:induction false} MatchesAppend(lib: Library, query: CompiledQuery, documents: seq<Doc>, more: seq<Doc>)
    ensures Matches(lib, query, documents + more) == Matches(lib, query, documents) + Matches(lib, query, more)
    decreases |documents|
  {
    hide Evaluate;
    if |documents| == 0 {
      assert documents + more == more;
    } else {
      MatchesAppend(lib, query, documents[1..], more);
      assert (documents + more)[1..] == documents[1..] + more;
    }
  }

  lemma NoMatches(lib: Library, query: CompiledQuery, documents: seq<Doc>)
    requires |documents| == 0
    ensures Matches(lib, query, documents) == []
  {
  }

  // ---------------------------------------------------------------------------
  // What is asked for: the matches, sorted, without the first ones, up to the limit
  // ---------------------------------------------------------------------------

  /** Exactly the documents that satisfy the query, each as often as it stands, in the order in which they stand. */
  ghost predicate Chosen(lib: Library, query: CompiledQuery, documents: seq<Doc>, chosen: seq<Doc>) {
    exists places :: Picks(lib, query, documents, chosen, places)
  }

  ghost predicate Picks(lib: Library, query: CompiledQuery, documents: seq<Doc>, chosen: seq<Doc>, places: seq<nat>) {
    && |places| == |chosen|
    && (forall i, j :: 0 <= i < j < |places| ==> places[i] < places[j])
    && (forall i :: 0 <= i < |places| ==> places[i] < |documents| && chosen[i] == documents[places[i]])
    && forall k: nat :: k in places <==> k < |documents| && Evaluate(lib, query, documents[k])
  }

  lemma {:induction false} MatchesMean(lib: Library, query: CompiledQuery, documents: seq<Doc>)
    ensures Chosen(lib, query, documents, Matches(lib, query, documents))
    decreases |documents|
  {
    var places := PicksOf(lib, query, documents);
  }

  lemma {:induction false} PicksOf(lib: Library, query: CompiledQuery, documents: seq<Doc>) returns (places: seq<nat>)
    ensures Picks(lib, query, documents, Matches(lib, query, documents), places)
    decreases |documents|
  {
    hide Evaluate, Picks, Matches;
    if |documents| == 0 {
      places := [];
      NothingPicked(lib, query);
      assert documents == [];
    } else {
      var n := |documents| - 1;
      var before := PicksOf(lib, query, documents[..n]);
      MatchesAppend(lib, query, documents[..n], [documents[n]]);
      assert documents == documents[..n] + [documents[n]];
      LastPicked(lib, query, documents[..n], Matches(lib, query, documents[..n]), before, documents[n]);
      places := if Evaluate(lib, query, documents[n]) then before + [n] else before;
    }
  }

  lemma NothingPicked(lib: Library, query: CompiledQuery)
    ensures Matches(lib, query, []) == [] && Picks(lib, query, [], [], [])
  {
  }

  lemma LastPicked(lib: Library, query: CompiledQuery, documents: seq<Doc>, chosen: seq<Doc>, places: seq<nat>, d: Doc)
    requires Picks(lib, query, documents, chosen, places)
    ensures Picks(lib, query, documents + [d], chosen + Matches(lib, query, [d]), if Evaluate(lib, query, d) then places + [|documents|] else places)
  {
    hide Evaluate, Matches, Picks;
    MatchesOne(lib, query, d);
    if Evaluate(lib, query, d) {
      OneMorePicked(lib, query, documents, chosen, places, d);
    } else {
      NoMorePicked(lib, query, documents, chosen, places, d);
      assert chosen + [] == chosen;
    }
  }

  lemma MatchesOne(lib: Library, query: CompiledQuery, d: Doc)
    ensures Matches(lib, query, [d]) == if Evaluate(lib, query, d) then [d] else []
  {
    hide Evaluate;
    assert Matches(lib, query, [d][1..]) == [];
  }

  lemma OneMorePicked(lib: Library, query: CompiledQuery, documents: seq<Doc>, chosen: seq<Doc>, places: seq<nat>, d: Doc)
    requires Picks(lib, query, documents, chosen, places) && Evaluate(lib, query, d)
    ensures Picks(lib, query, documents + [d], chosen + [d], places + [|documents|])
  {
    hide Evaluate;
  }

  lemma NoMorePicked(lib: Library, query: CompiledQuery, documents: seq<Doc>, chosen: seq<Doc>, places: seq<nat>, d: Doc)
    requires Picks(lib, query, documents, chosen, places) && !Evaluate(lib, query, d)
    ensures Picks(lib, query, documents + [d], chosen, places)
  {
    hide Evaluate;
  }

  /** The results from `skip` on, as many as the limit allows. */
  ghost predicate PartOf(result: seq<Doc>, skip: nat, limit: Option<nat>, part: seq<Doc>) {
    && |part| <= |result| - (if skip < |result| then skip else |result|)
    && (forall i :: 0 <= i < |part| ==> part[i] == result[skip + i])
    && (|part| < |result| - skip ==> limit == Some(|part|))
    && (limit.Some? ==> |part| <= limit.value)
  }

  lemma WindowMeans(result: seq<Doc>, skip: nat, limit: Option<nat>)
    ensures PartOf(result, skip, limit, Window(result, skip, 0, limit, 0))
  {
  }

  /** Returning a document moves the window by one. */
  lemma WindowReturns(first: Doc, rest: seq<Doc>, skip: nat, skipped: nat, limit: Option<nat>, returned: nat)
    requires skipped >= skip && (limit.Some? ==> returned < limit.value)
    ensures Window([first] + rest, skip, skipped, limit, returned) == [first] + Window(rest, skip, skipped, limit, returned + 1)
  {
  }

  /** Skipping a document leaves the window alone. */
  lemma WindowSkips(first: Doc, rest: seq<Doc>, skip: nat, skipped: nat, limit: Option<nat>, returned: nat)
    requires skipped < skip
    ensures Window([first] + rest, skip, skipped, limit, returned) == Window(rest, skip, skipped + 1, limit, returned)
  {
    assert ([first] + rest)[1..] == rest;
  }

  lemma WindowFull(pending: seq<Doc>, skip: nat, skipped: nat, limit: Option<nat>, returned: nat)
    requires (limit.Some? && returned >= limit.value) || |pending| == 0
    ensures Window(pending, skip, skipped, limit, returned) == []
  {
  }

  /** Skipping everything at once, when everything matches. */
  lemma WindowFastForward(documents: seq<Doc>, skip: nat, limit: Option<nat>, returned: nat)
    ensures var k := if skip <= |documents| then skip else |documents|;
            Window(documents[k..], skip, skip, limit, returned) == Window(documents, skip, 0, limit, returned)
  {
  }

  class PocketCursor {
    const storage: FileStorage
    const encoder: Encoder
    const lib: Library
    const order: StringOrder
    const query: CompiledQuery
    const candidates: seq<Candidate>
    const cache: DocumentCache?
    ghost const documents: seq<Doc>  // what stood at the candidates' offsets when the cursor was made
    var currentIndex: nat
    var skippedMatches: nat
    var returnedCount: nat
    var limitCount: Option<nat>
    var skipCount: nat
    var sortFields: Option<seq<SortField>>
    var sortedBuffer: Option<seq<Doc>>
    var sortedIndex: nat
    var bulkRange: BulkRange
    var perRecordReadsSinceDeferred: nat
    ghost var perRecordReads: nat  // records read one by one so far
    ghost var bulkReads: nat       // ranges read so far

    ghost function CacheObjects(): set<object> {
      if cache == null then {} else {cache}
    }

    /** The file still holds the snapshot, and the cache holds only what is in the file. */
    ghost predicate Grounded()
      reads storage, CacheObjects()
    {
      && storage.Valid() && Snapshot(encoder, storage.bytes, candidates, documents)
      && (cache != null ==> cache.Valid() && CacheCurrent(encoder, storage.bytes, cache.Recency()))
    }

    /** The range that was read shows the candidates as the file does. */
    ghost predicate RangeTrue()
      reads this`bulkRange, storage
    {
      bulkRange.Loaded? ==> RangeHolds(storage.bytes, candidates, bulkRange.buffer, bulkRange.rangeStart)
    }

    /** At most 256 single reads and one range read, unless there is but one candidate. */
    ghost predicate Thrifty()
      reads this`bulkRange, this`bulkReads, this`perRecordReads, this`perRecordReadsSinceDeferred
    {
      && bulkReads == (if bulkRange.Loaded? then 1 else 0)
      && (bulkRange.Declined? ==> |candidates| < SCAN_PRELOAD_THRESHOLD)
      && (|candidates| >= SCAN_PRELOAD_THRESHOLD ==> perRecordReads <= MAX_PER_RECORD_READS_BEFORE_BULK_ESCALATION)
      && (bulkRange.Undecided? ==> perRecordReads <= perRecordReadsSinceDeferred < MAX_PER_RECORD_READS_BEFORE_BULK_ESCALATION)
    }

    /** The sorted results, once collected, are the sorted matches. */
    ghost predicate SortedTrue()
      reads this`sortFields, this`sortedBuffer, this`sortedIndex
    {
      && (sortFields.Some? ==> AllSortable(Matches(lib, query, documents), sortFields.value))
      && (sortedBuffer.Some? ==> sortFields.Some? && sortedBuffer.value == Ranked() && sortedIndex <= |sortedBuffer.value|)
    }

    ghost function Ranked(): seq<Doc>
      requires sortFields.Some? && AllSortable(Matches(lib, query, documents), sortFields.value)
      reads this`sortFields
    {
      SortDocuments(order, Matches(lib, query, documents), sortFields.value)
    }

    ghost predicate Valid()
      reads this, storage, CacheObjects()
    {
      && Grounded() && RangeTrue() && Thrifty() && SortedTrue()
      && currentIndex <= |candidates| == |documents|
    }

    /** What the cursor has still to consider. */
    ghost function Pending(): seq<Doc>
      requires SortedTrue() && currentIndex <= |documents|
      reads this`currentIndex, this`sortFields, this`sortedBuffer, this`sortedIndex
    {
      if sortFields.None? then Matches(lib, query, documents[currentIndex..])
      else if sortedBuffer.Some? then sortedBuffer.value[sortedIndex..]
      else Ranked()
    }

    /** The documents the next calls of `Next` return. */
    ghost function Remaining(): seq<Doc>
      requires SortedTrue() && currentIndex <= |documents|
      reads this
    {
      Window(Pending(), skipCount, skippedMatches, limitCount, returnedCount)
    }

    /** Nothing has been returned or collected yet. */
    ghost predicate Started()
      reads this`currentIndex, this`skippedMatches, this`returnedCount, this`sortedBuffer
    {
      currentIndex == skippedMatches == returnedCount == 0 && sortedBuffer.None?
    }

    /** What a cursor returns that has not started: the matches, in the order asked for, the part asked for. */
    lemma WhatRemains()
      requires Valid() && Started() && IsTotalOrder(order)
      ensures exists chosen, result :: Chosen(lib, query, documents, chosen)
                                     && (if sortFields.None? then result == chosen else Sorted(order, chosen, result, sortFields.value))
                                     && PartOf(result, skipCount, limitCount, Remaining())
    {
      hide Grounded, RangeTrue, Thrifty, Matches, SortDocuments, Sorted, Chosen, Window, PartOf, IsTotalOrder;
      var chosen := Matches(lib, query, documents);
      MatchesMean(lib, query, documents);
      assert documents[0..] == documents;
      WindowMeans(Pending(), skipCount, limitCount);
      if sortFields.Some? {
        SortMeans(order, chosen, sortFields.value);
        assert Sorted(order, chosen, Pending(), sortFields.value);
      }
      assert PartOf(Pending(), skipCount, limitCount, Remaining());
    }

    lemma NothingReturned()
      requires Started() && sortFields.None? && limitCount.None? && skipCount == 0
      ensures SortedTrue() && Remaining() == Matches(lib, query, documents)
    {
      hide Matches;
      assert documents[0..] == documents;
    }

    constructor (storage: FileStorage, query: CompiledQuery, candidates: seq<Candidate>, encoder: Encoder, cache: DocumentCache?,
                 lib: Library, order: StringOrder, ghost documents: seq<Doc>)
      requires storage.Valid() && Snapshot(encoder, storage.bytes, candidates, documents)
      requires cache != null ==> cache.Valid() && CacheCurrent(encoder, storage.bytes, cache.Recency())
      ensures Valid() && this.storage == storage && this.cache == cache && this.encoder == encoder && this.documents == documents
      ensures this.lib == lib && this.query == query && this.order == order && this.candidates == candidates
      ensures Started() && limitCount == None && skipCount == 0 && sortFields == None && perRecordReads == bulkReads == 0
      ensures Remaining() == Matches(lib, query, documents)
    {
      this.storage, this.query, this.candidates, this.encoder, this.cache := storage, query, candidates, encoder, cache;
      this.lib, this.order, this.documents := lib, order, documents;
      currentIndex, skippedMatches, returnedCount := 0, 0, 0;
      limitCount, skipCount := None, 0;
      sortFields, sortedBuffer, sortedIndex := None, None, 0;
      bulkRange, perRecordReadsSinceDeferred, perRecordReads, bulkReads := Undecided, 0, 0, 0;
      new;
      SameLength(encoder, storage.bytes, candidates, documents);
      NothingReturned();
    }

    // -------------------------------------------------------------------------
    // Reading one candidate
    // -------------------------------------------------------------------------

    /** Decides whether to read the whole range now; below the threshold never, behind a limit later. */
    method ResolveBulkRange(forceFullRead: bool) returns (range: BulkRange)
      requires Grounded() && RangeTrue() && Thrifty()
      modifies this`bulkRange, this`bulkReads
      ensures RangeTrue() && Thrifty() && range == (if bulkRange.Loaded? then bulkRange else Declined)
      ensures !old(bulkRange).Undecided? ==> bulkRange == old(bulkRange)
      ensures forceFullRead || limitCount.None? ==> !bulkRange.Undecided?
    {
      hide Snapshot, RangeHolds, ReadRecord;
      if !bulkRange.Undecided? {
        return bulkRange;
      }
      if |candidates| < SCAN_PRELOAD_THRESHOLD {
        bulkRange := Declined;
        return Declined;
      }
      if !forceFullRead && limitCount.Some? {
        return Declined;
      }
      OffsetsReadable(encoder, storage.bytes, candidates, documents);
      var buffer, rangeStart := storage.ReadBulkRange(OffsetsOf(candidates));
      RangeCoversAll(encoder, storage.bytes, candidates, documents, buffer, rangeStart);
      bulkRange := Loaded(buffer, rangeStart);
      bulkReads := bulkReads + 1;
      return bulkRange;
    }

    /** A cached version is taken from the cache, and nothing else is read; any other is put into it. */
    twostate predicate ThroughCache(i: nat, document: Doc)
      requires cache != null && i < |candidates| && old(Ordering(cache.insertionOrder, cache.entries)) && Ordering(cache.insertionOrder, cache.entries)
      reads this, cache
    {
      var c := candidates[i];
      if exists e :: e in old(cache.Recency()) && e.id == c.id && e.offset == c.offset
      then bulkReads == old(bulkReads) && perRecordReads == old(perRecordReads)
           && Follows(old(cache.Recency()), Got(c.id, c.offset), cache.maxBytesValue, cache.Recency())
      else Follows(old(cache.Recency()), Put(CacheEntry(c.id, document, c.offset, cache.sizeOf(document))), cache.maxBytesValue, cache.Recency())
    }

    /** Cache, range or single read: the document is the one the snapshot holds. */
    method ReadCandidateDocument(i: nat, forceFullRead: bool) returns (document: Doc)
      requires Grounded() && RangeTrue() && Thrifty() && i < |candidates| == |documents|
      modifies this`bulkRange, this`bulkReads, this`perRecordReads, CacheObjects()
      ensures document == documents[i]
      ensures Grounded() && RangeTrue()
      ensures cache != null ==> ThroughCache(i, document)
      ensures bulkReads == (if bulkRange.Loaded? then 1 else 0) && (bulkRange.Declined? ==> |candidates| < SCAN_PRELOAD_THRESHOLD)
      ensures !old(bulkRange).Undecided? ==> bulkRange == old(bulkRange)
      ensures perRecordReads <= old(perRecordReads) + (if bulkRange.Loaded? then 0 else 1)
      ensures forceFullRead && (|candidates| >= SCAN_PRELOAD_THRESHOLD || bulkRange.Undecided?) ==> perRecordReads == old(perRecordReads)
    {
      hide Snapshot, RangeHolds, RangeTrue, ReadRecord, Decode, CacheCurrent, Lookup, AfterGet, AfterSet, Follows;
      var candidate := candidates[i];
      if cache == null {
        document := ReadFromStorage(i, forceFullRead);
        return;
      }
      ghost var before := cache.Recency();
      CacheDistinct(cache);
      LookupFinds(before, candidate.id);
      MissFollows(before, candidate.id, candidate.offset, cache.maxBytesValue);
      OperationsCurrent(encoder, storage.bytes, before, candidate.id, candidate.offset, CacheEntry([], [], 0, 0), 0);
      SnapshotReads(encoder, storage.bytes, candidates, documents, i);
      var cached := cache.Get(candidate.id, candidate.offset);
      if cached.Some? {
        HitIsRead(encoder, storage.bytes, before, candidate.id, candidate.offset, documents[i]);
        return cached.value;
      }
      document := ReadFromStorage(i, forceFullRead);
      OperationsCurrent(encoder, storage.bytes, before, [], 0, CacheEntry(candidate.id, document, candidate.offset, cache.sizeOf(document)), cache.maxBytesValue);
      cache.Set(candidate.id, candidate.offset, document);
    }

    /** From the range, if it is or gets read, or else as a single record. */
    method ReadFromStorage(i: nat, forceFullRead: bool) returns (document: Doc)
      requires Grounded() && RangeTrue() && Thrifty() && i < |candidates| == |documents|
      modifies this`bulkRange, this`bulkReads, this`perRecordReads
      ensures document == documents[i] && RangeTrue()
      ensures bulkReads == (if bulkRange.Loaded? then 1 else 0) && (bulkRange.Declined? ==> |candidates| < SCAN_PRELOAD_THRESHOLD)
      ensures !old(bulkRange).Undecided? ==> bulkRange == old(bulkRange)
      ensures perRecordReads <= old(perRecordReads) + (if bulkRange.Loaded? then 0 else 1)
      ensures forceFullRead && (|candidates| >= SCAN_PRELOAD_THRESHOLD || bulkRange.Undecided?) ==> perRecordReads == old(perRecordReads)
    {
      hide Snapshot, RangeHolds, ReadRecord, Decode, CacheCurrent;
      var candidate := candidates[i];
      SnapshotReads(encoder, storage.bytes, candidates, documents, i);
      var range := ResolveBulkRange(forceFullRead);
      var operation: Result<Record>;
      if range.Loaded? {
        RangeReads(storage.bytes, candidates, range.buffer, range.rangeStart, i);
        operation := ReadRecord(range.buffer, candidate.offset - range.rangeStart);
      } else {
        operation := storage.ReadOperationAtOffset(candidate.offset);
        perRecordReads := perRecordReads + 1;
      }
      var put := Decode(encoder, operation.value);
      document := put.value.document;
    }

    // -------------------------------------------------------------------------
    // Iteration
    // -------------------------------------------------------------------------

    method Limit(count: nat)
      requires Valid()
      modifies this`limitCount
      ensures Valid() && limitCount == Some(count)
    {
      limitCount := Some(count);
    }

    method Skip(count: nat)
      requires Valid()
      modifies this`skipCount
      ensures Valid() && skipCount == count
    {
      skipCount := count;
    }

    /** Sorting is only modelled for matches whose sort fields hold no array and no object. */
    method Sort(fields: seq<SortField>)
      requires Valid() && sortedBuffer.None? && AllSortable(Matches(lib, query, documents), fields)
      modifies this`sortFields
      ensures Valid() && sortFields == Some(fields)
    {
      sortFields := Some(fields);
    }

    /** A match-all query skips without reading. */
    method ApplyMatchAllSkipFastPath()
      requires Valid() && sortFields.None?
      modifies this`currentIndex, this`skippedMatches
      ensures Valid() && Remaining() == old(Remaining())
    {
      hide Grounded, RangeTrue, Thrifty, Window, Matches;
      ghost var objects := CacheObjects();
      if currentIndex == 0 && skippedMatches == 0 && skipCount > 0 && IsMatchAll(query) {
        WindowFastForward(documents, skipCount, limitCount, returnedCount);
        assert documents[0..] == documents;
        MatchesAll(lib, query, documents);
        currentIndex := if skipCount <= |candidates| then skipCount else |candidates|;
        MatchesAll(lib, query, documents[currentIndex..]);
        skippedMatches := skipCount;
      }
    }

    /** Reads the next candidate and decides whether single reads have gone on long enough. */
    method ReadNext() returns (document: Doc)
      requires Valid() && currentIndex < |candidates|
      modifies this`currentIndex, this`bulkRange, this`bulkReads, this`perRecordReads, this`perRecordReadsSinceDeferred, CacheObjects()
      ensures Valid() && currentIndex == old(currentIndex) + 1 && document == documents[old(currentIndex)]
    {
      hide Grounded, RangeTrue, SortedTrue;
      document := ReadCandidateDocument(currentIndex, limitCount.None?);
      currentIndex := currentIndex + 1;
      if bulkRange.Undecided? {
        perRecordReadsSinceDeferred := perRecordReadsSinceDeferred + 1;
        if perRecordReadsSinceDeferred >= MAX_PER_RECORD_READS_BEFORE_BULK_ESCALATION {
          Escalate();
        }
      }
    }

    /** Gives up on single reads: the whole range is read at once. */
    method Escalate()
      requires Grounded() && bulkRange.Undecided? && bulkReads == 0 && perRecordReads <= MAX_PER_RECORD_READS_BEFORE_BULK_ESCALATION
      modifies this`bulkRange, this`bulkReads
      ensures Grounded() && RangeTrue() && Thrifty()
    {
      hide Snapshot, RangeHolds, ReadRecord;
      if |candidates| < SCAN_PRELOAD_THRESHOLD {
        bulkRange := Declined;
        return;
      }
      OffsetsReadable(encoder, storage.bytes, candidates, documents);
      var buffer, rangeStart := storage.ReadBulkRange(OffsetsOf(candidates));
      RangeCoversAll(encoder, storage.bytes, candidates, documents, buffer, rangeStart);
      bulkRange := Loaded(buffer, rangeStart);
      bulkReads := bulkReads + 1;
    }

    /** The first of the remaining documents, or nothing when there is none. */
    method Next() returns (document: Option<Doc>)
      requires Valid()
      modifies this, CacheObjects()
      ensures Valid() && unchanged(`limitCount, `skipCount, `sortFields)
      ensures document.None? ==> old(Remaining()) == [] == Remaining()
      ensures document.Some? ==> old(Remaining()) == [document.value] + Remaining()
    {
      hide Grounded, RangeTrue, Thrifty, SortedTrue, Window, Matches, Remaining;
      if sortFields.Some? {
        document := NextSorted();
        return;
      }
      ghost var before := Remaining();
      ApplyMatchAllSkipFastPath();
      while currentIndex < |candidates|
        invariant Valid() && sortFields.None? && Remaining() == before
        invariant unchanged(`limitCount, `skipCount, `sortFields)
      {
        if limitCount.Some? && returnedCount >= limitCount.value {
          NothingLeft();
          return None;
        }
        document := Consider();
        if document.Some? {
          return;
        }
      }
      NothingLeft();
      return None;
    }

    /** At the limit, or past the last candidate. */
    lemma NothingLeft()
      requires Valid()
      requires (limitCount.Some? && returnedCount >= limitCount.value) || (sortFields.None? && currentIndex == |candidates|)
               || (sortedBuffer.Some? && sortedIndex == |sortedBuffer.value|)
      ensures Remaining() == []
    {
      hide Grounded, RangeTrue, Thrifty, Window, Ranked;
      WindowFull(Pending(), skipCount, skippedMatches, limitCount, returnedCount);
    }

    /** One turn of the loop: a candidate that does not match, is skipped, or is returned. */
    method Consider() returns (document: Option<Doc>)
      requires Valid() && sortFields.None? && currentIndex < |candidates| && (limitCount.Some? ==> returnedCount < limitCount.value)
      modifies this, CacheObjects()
      ensures Valid() && unchanged(`limitCount, `skipCount, `sortFields, `sortedBuffer, `sortedIndex) && currentIndex == old(currentIndex) + 1
      ensures old(Remaining()) == (if document.Some? then [document.value] else []) + Remaining()
    {
      hide Grounded, RangeTrue, Thrifty, Window, Matches, SortedTrue;
      MatchesNext(lib, query, documents, currentIndex);
      ghost var rest := Matches(lib, query, documents[currentIndex + 1..]);
      var next := ReadNext();
      if Evaluate(lib, query, next) {
        if skippedMatches < skipCount {
          WindowSkips(next, rest, skipCount, skippedMatches, limitCount, returnedCount);
          skippedMatches := skippedMatches + 1;
        } else {
          WindowReturns(next, rest, skipCount, skippedMatches, limitCount, returnedCount);
          returnedCount := returnedCount + 1;
          return Some(next);
        }
      } else {
        assert [] + rest == rest;
      }
      assert [] + Remaining() == Remaining();
      return None;
    }

    /** The matches of all candidates, in order; never one by one, if there are two or more. */
    method CollectAllMatching() returns (results: seq<Doc>)
      requires Valid()
      modifies this`bulkRange, this`bulkReads, this`perRecordReads, CacheObjects()
      ensures Valid() && results == Matches(lib, query, documents)
    {
      hide Grounded, RangeTrue, Thrifty, Matches, SortedTrue;
      results := [];
      assert documents[0..] == documents;
      for i := 0 to |candidates|
        invariant Valid()
        invariant Matches(lib, query, documents) == results + Matches(lib, query, documents[i..])
      {
        MatchesNext(lib, query, documents, i);
        var document := ReadForced(i);
        if Evaluate(lib, query, document) {
          results := results + [document];
        }
      }
      NoMatches(lib, query, documents[|candidates|..]);
    }

    method ReadForced(i: nat) returns (document: Doc)
      requires Valid() && i < |candidates|
      modifies this`bulkRange, this`bulkReads, this`perRecordReads, CacheObjects()
      ensures Valid() && document == documents[i]
    {
      hide Grounded, RangeTrue, SortedTrue;
      document := ReadCandidateDocument(i, true);
    }

    /** Counts all matches, whatever skip and limit say, and leaves the iteration where it is. */
    method Count() returns (total: nat)
      requires Valid()
      modifies this`bulkRange, this`bulkReads, this`perRecordReads, CacheObjects()
      ensures Valid() && total == |Matches(lib, query, documents)| && Remaining() == old(Remaining())
    {
      hide Grounded, RangeTrue, Thrifty, Matches;
      if IsMatchAll(query) {
        MatchesAll(lib, query, documents);
        return |candidates|;
      }
      total := 0;
      assert documents[0..] == documents;
      for i := 0 to |candidates|
        invariant Valid()
        invariant |Matches(lib, query, documents)| == total + |Matches(lib, query, documents[i..])|
      {
        MatchesNext(lib, query, documents, i);
        var document := ReadForced(i);
        if Evaluate(lib, query, document) {
          total := total + 1;
        }
      }
      NoMatches(lib, query, documents[|candidates|..]);
    }

    method NextSorted() returns (document: Option<Doc>)
      requires Valid() && sortFields.Some?
      modifies this, CacheObjects()
      ensures Valid() && unchanged(`limitCount, `skipCount, `sortFields)
      ensures document.None? ==> old(Remaining()) == [] == Remaining()
      ensures document.Some? ==> old(Remaining()) == [document.value] + Remaining()
    {
      hide Grounded, RangeTrue, Thrifty, SortedTrue, Window, Matches, Remaining;
      ghost var before := Remaining();
      if sortedBuffer.None? {
        FillSortedBuffer();
      }
      while sortedIndex < |sortedBuffer.value|
        invariant Valid() && sortFields.Some? && sortedBuffer.Some? && Remaining() == before
        invariant unchanged(`limitCount, `skipCount, `sortFields)
        decreases |sortedBuffer.value| - sortedIndex
      {
        if limitCount.Some? && returnedCount >= limitCount.value {
          NothingLeft();
          return None;
        }
        document := ConsiderSorted();
        if document.Some? {
          return;
        }
      }
      SortedWithin();
      NothingLeft();
      return None;
    }

    lemma SortedWithin()
      requires Valid() && sortedBuffer.Some?
      ensures sortedIndex <= |sortedBuffer.value|
    {
      hide Grounded, RangeTrue, Thrifty, Ranked;
    }

    /** Collects and sorts all matches. */
    method FillSortedBuffer()
      requires Valid() && sortFields.Some? && sortedBuffer.None?
      modifies this, CacheObjects()
      ensures Valid() && sortedBuffer.Some? && unchanged(`limitCount, `skipCount, `sortFields) && Remaining() == old(Remaining())
      ensures IsTotalOrder(order) ==>
                exists chosen :: Chosen(lib, query, documents, chosen) && Sorted(order, chosen, sortedBuffer.value, sortFields.value)
    {
      hide Grounded, RangeTrue, Thrifty, Window, Matches, SortDocuments, AllSortable, Sorted, Chosen, IsTotalOrder;
      var matching := CollectAllMatching();
      MatchesMean(lib, query, documents);
      if IsTotalOrder(order) {
        SortMeans(order, matching, sortFields.value);
      }
      sortedBuffer := Some(SortDocuments(order, matching, sortFields.value));
      sortedIndex := 0;
      assert sortedBuffer.value[0..] == sortedBuffer.value;
    }

    method ConsiderSorted() returns (document: Option<Doc>)
      requires Valid() && sortFields.Some? && sortedBuffer.Some? && sortedIndex < |sortedBuffer.value|
      requires limitCount.Some? ==> returnedCount < limitCount.value
      modifies this`sortedIndex, this`skippedMatches, this`returnedCount
      ensures Valid() && sortedIndex == old(sortedIndex) + 1
      ensures old(Remaining()) == (if document.Some? then [document.value] else []) + Remaining()
    {
      hide Grounded, RangeTrue, Thrifty, Window, Ranked, AllSortable;
      ghost var objects := CacheObjects();
      var next := sortedBuffer.value[sortedIndex];
      ghost var rest := sortedBuffer.value[sortedIndex + 1..];
      assert sortedBuffer.value[sortedIndex..] == [next] + rest;
      sortedIndex := sortedIndex + 1;
      if skippedMatches < skipCount {
        WindowSkips(next, rest, skipCount, skippedMatches, limitCount, returnedCount);
        skippedMatches := skippedMatches + 1;
        assert [] + Remaining() == Remaining();
        return None;
      }
      WindowReturns(next, rest, skipCount, skippedMatches, limitCount, returnedCount);
      returnedCount := returnedCount + 1;
      return Some(next);
    }

    /** Everything that remains, in order. */
    method ToArray() returns (result: seq<Doc>)
      requires Valid()
      modifies this, CacheObjects()
      ensures Valid() && result == old(Remaining()) && Remaining() == []
    {
      hide Grounded, RangeTrue, Thrifty, SortedTrue, Remaining, Pending;
      result := [];
      ghost var before := Remaining();
      while true
        invariant Valid() && before == result + Remaining()
        decreases |before| - |result|
      {
        var document := Next();
        if document.None? {
          return;
        }
        result := result + [document.value];
      }
    }

    /** A cursor survives every append: what it will return was settled when it was made. */
    twostate lemma KeptByAppend(more: seq<byte>)
      requires old(Valid()) && unchanged(this) && storage.Valid() && storage.bytes == old(storage.bytes) + more
      requires cache != null ==> cache.Valid() && CacheCurrent(encoder, storage.bytes, cache.Recency())
      ensures Valid() && Remaining() == old(Remaining())
    {
      hide Snapshot, RangeHolds, CacheCurrent, ReadRecord;
      SnapshotGrows(encoder, old(storage.bytes), more, candidates, documents);
      if bulkRange.Loaded? {
        RangeGrows(encoder, old(storage.bytes), more, candidates, documents, bulkRange.buffer, bulkRange.rangeStart);
      }
    }
  }

  lemma SameLength(enc: Encoder, file: seq<byte>, candidates: seq<Candidate>, documents: seq<Doc>)
    requires Snapshot(enc, file, candidates, documents)
    ensures |candidates| == |documents|
  {
  }

  lemma RangeReads(file: seq<byte>, candidates: seq<Candidate>, buffer: seq<byte>, rangeStart: nat, i: nat)
    requires RangeHolds(file, candidates, buffer, rangeStart) && i < |candidates|
    ensures rangeStart <= candidates[i].offset && ReadRecord(buffer, candidates[i].offset - rangeStart) == ReadRecord(file, candidates[i].offset)
  {
    hide ReadRecord;
  }

  lemma CacheDistinct(cache: DocumentCache)
    requires cache.Valid()
    ensures Distinct(cache.Recency())
  {
    OrderingDistinct(cache.insertionOrder, cache.entries);
  }

  /** A miss leaves the list alone. */
  lemma MissFollows(r: seq<CacheEntry>, id: Str, offset: nat, maxBytes: nat)
    requires Distinct(r)
    ensures forall after :: Follows(r, Got(id, offset), maxBytes, after) && !(exists e :: e in r && e.id == id && e.offset == offset) ==> after == r
  {
    hide Refreshed;
  }
}
