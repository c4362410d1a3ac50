/**
 The hot-document cache: least recently used, bounded in bytes, versioned by file offset. It is
 proved to refine a plain recency list, and to evict no more than it must.
 */
module Cache {
  import opened Bytes
  import opened Documents

  datatype CacheEntry = CacheEntry(id: Str, document: Doc, offset: nat, bytes: nat)

  // ---------------------------------------------------------------------------
  // Recency lists: least recently used first
  // ---------------------------------------------------------------------------

  function Total(r: seq<CacheEntry>): nat {
    if |r| == 0 then 0 else r[0].bytes + Total(r[1..])
  }

  predicate Distinct(r: seq<CacheEntry>) {
    forall i, j :: 0 <= i < j < |r| ==> r[i].id != r[j].id
  }

  function Lookup(r: seq<CacheEntry>, id: Str): Option<CacheEntry> {
    if |r| == 0 then None else if r[0].id == id then Some(r[0]) else Lookup(r[1..], id)
  }

  function Excluding(r: seq<CacheEntry>, id: Str): seq<CacheEntry> {
    if |r| == 0 then [] else (if r[0].id == id then [] else [r[0]]) + Excluding(r[1..], id)
  }

  /** Drops from the front until `incoming` more bytes fit. */
  function Trim(r: seq<CacheEntry>, incoming: nat, maxBytes: nat): seq<CacheEntry> {
    if |r| > 0 && Total(r) + incoming > maxBytes then Trim(r[1..], incoming, maxBytes) else r
  }

  function AfterGet(r: seq<CacheEntry>, id: Str, offset: nat): seq<CacheEntry> {
    var e := Lookup(r, id);
    if e.Some? && e.value.offset == offset then Excluding(r, id) + [e.value] else r
  }

  function AfterSet(r: seq<CacheEntry>, e: CacheEntry, maxBytes: nat): seq<CacheEntry> {
    if e.bytes > maxBytes then Excluding(r, e.id) else Trim(Excluding(r, e.id), e.bytes, maxBytes) + [e]
  }

  // ---------------------------------------------------------------------------
  // What the operations do to the list, by positions in it
  // ---------------------------------------------------------------------------

  datatype Use = Got(id: Str, offset: nat) | Put(entry: CacheEntry) | Forgot(id: Str) | Resized

  /** The entry moves to the end, and the others stay in their order. */
  ghost predicate Refreshed(before: seq<CacheEntry>, e: CacheEntry, after: seq<CacheEntry>) {
    exists k :: 0 <= k < |before| && before[k] == e && after == before[..k] + before[k + 1..] + [e]
  }

  /** The entry of this id is taken out, if there is one. */
  ghost predicate Without(before: seq<CacheEntry>, id: Str, after: seq<CacheEntry>) {
    || (exists k :: 0 <= k < |before| && before[k].id == id && after == before[..k] + before[k + 1..])
    || (after == before && forall e :: e in before ==> e.id != id)
  }

  /** So many go from the front: no more than needed, and all of them only if nothing less makes room. */
  ghost predicate Evicts(r: seq<CacheEntry>, incoming: nat, maxBytes: nat, k: int) {
    && 0 <= k <= |r| && (k == |r| || Total(r[k..]) + incoming <= maxBytes)
    && forall j :: 0 <= j < k ==> Total(r[j..]) + incoming > maxBytes
  }

  /** What is too large alone is not kept; anything else goes to the end, once there is room. */
  ghost predicate PutBehind(rest: seq<CacheEntry>, e: CacheEntry, maxBytes: nat, after: seq<CacheEntry>) {
    if e.bytes > maxBytes then after == rest
    else exists k :: Evicts(rest, e.bytes, maxBytes, k) && after == rest[k..] + [e]
  }

  /** The list after a use of the cache. */
  ghost predicate Follows(before: seq<CacheEntry>, use: Use, maxBytes: nat, after: seq<CacheEntry>) {
    match use
    case Got(id, offset) =>
      if exists e :: e in before && e.id == id && e.offset == offset
      then exists e :: e in before && e.id == id && e.offset == offset && Refreshed(before, e, after)
      else after == before
    case Put(e) => exists rest :: Without(before, e.id, rest) && PutBehind(rest, e, maxBytes, after)
    case Forgot(id) => Without(before, id, after)
    case Resized => exists k :: Evicts(before, 0, maxBytes, k) && after == before[k..]
  }

  lemma {:induction false} ExcludingMeans(r: seq<CacheEntry>, id: Str)
    requires Distinct(r)
    ensures Without(r, id, Excluding(r, id))
    decreases |r|
  {
    hide Without;
    if |r| == 0 {
      Unfiled(r, id);
    } else if r[0].id == id {
      ExcludingAbsent(r[1..], id);
      TakenOut(r, 0);
    } else {
      assert Distinct(r[1..]);
      ExcludingMeans(r[1..], id);
      WithoutBehind(r[0], r[1..], id, Excluding(r[1..], id));
      assert [r[0]] + r[1..] == r;
    }
  }

  lemma Unfiled(r: seq<CacheEntry>, id: Str)
    requires forall e :: e in r ==> e.id != id
    ensures Without(r, id, r)
  {
  }

  lemma TakenOut(r: seq<CacheEntry>, k: nat)
    requires k < |r|
    ensures Without(r, r[k].id, r[..k] + r[k + 1..])
  {
  }

  lemma WithoutBehind(first: CacheEntry, rest: seq<CacheEntry>, id: Str, after: seq<CacheEntry>)
    requires Without(rest, id, after) && first.id != id
    ensures Without([first] + rest, id, [first] + after)
  {
    if k :| 0 <= k < |rest| && rest[k].id == id && after == rest[..k] + rest[k + 1..] {
      TakenOutBehind(first, rest, k);
    } else {
      Unfiled([first] + rest, id);
    }
  }

  lemma TakenOutBehind(first: CacheEntry, rest: seq<CacheEntry>, k: nat)
    requires k < |rest|
    ensures Without([first] + rest, rest[k].id, [first] + (rest[..k] + rest[k + 1..]))
  {
    hide Without;
    var all := [first] + rest;
    TakenOut(all, k + 1);
    assert all[..k + 1] == [first] + rest[..k] && all[k + 2..] == rest[k + 1..];
    assert [first] + (rest[..k] + rest[k + 1..]) == all[..k + 1] + all[k + 2..];
  }

  lemma GetFollows(r: seq<CacheEntry>, id: Str, offset: nat, maxBytes: nat)
    requires Distinct(r)
    ensures Follows(r, Got(id, offset), maxBytes, AfterGet(r, id, offset))
  {
    hide Lookup, Excluding;
    LookupFinds(r, id);
    ExcludingMeans(r, id);
    if e :| e in r && e.id == id && e.offset == offset {
      assert Lookup(r, id) == Some(e);
      assert Refreshed(r, e, AfterGet(r, id, offset));
    }
  }

  lemma TrimEvicts(r: seq<CacheEntry>, incoming: nat, maxBytes: nat)
    ensures exists k :: Evicts(r, incoming, maxBytes, k) && Trim(r, incoming, maxBytes) == r[k..]
  {
    var k := TrimIsShortest(r, incoming, maxBytes);
    assert Evicts(r, incoming, maxBytes, k);
  }

  lemma SetFollows(r: seq<CacheEntry>, e: CacheEntry, maxBytes: nat)
    requires Distinct(r)
    ensures Follows(r, Put(e), maxBytes, AfterSet(r, e, maxBytes))
  {
    hide Excluding, Trim, Without, Evicts;
    ExcludingMeans(r, e.id);
    TrimEvicts(Excluding(r, e.id), e.bytes, maxBytes);
    assert PutBehind(Excluding(r, e.id), e, maxBytes, AfterSet(r, e, maxBytes));
  }

  /** Eviction removes the shortest prefix that makes room: one entry fewer would not. */
  lemma {:induction false} TrimIsShortest(r: seq<CacheEntry>, incoming: nat, maxBytes: nat) returns (k: nat)
    ensures k <= |r| && Trim(r, incoming, maxBytes) == r[k..]
    ensures k == |r| || Total(r[k..]) + incoming <= maxBytes
    ensures forall j :: 0 <= j < k ==> Total(r[j..]) + incoming > maxBytes
    decreases |r|
  {
    if |r| > 0 && Total(r) + incoming > maxBytes {
      var m := TrimIsShortest(r[1..], incoming, maxBytes);
      k := m + 1;
      assert r[k..] == r[1..][m..];
      forall j | 0 <= j < k
        ensures Total(r[j..]) + incoming > maxBytes
      {
        if j > 0 {
          assert r[j..] == r[1..][j - 1..];
        } else {
          assert r[0..] == r;
        }
      }
    } else {
      k := 0;
      assert r[0..] == r;
    }
  }

  lemma {:induction false} TotalAppend(r: seq<CacheEntry>, s: seq<CacheEntry>)
    ensures Total(r + s) == Total(r) + Total(s)
    decreases |r|
  {
    if |r| == 0 {
      assert r + s == s;
    } else {
      TotalAppend(r[1..], s);
      assert (r + s)[1..] == r[1..] + s;
    }
  }

  lemma {:induction false} LookupFinds(r: seq<CacheEntry>, id: Str)
    ensures Lookup(r, id).Some? <==> exists i :: 0 <= i < |r| && r[i].id == id
    ensures Lookup(r, id).Some? ==> Lookup(r, id).value in r && Lookup(r, id).value.id == id
    ensures Distinct(r) ==> forall e :: e in r && e.id == id ==> Lookup(r, id) == Some(e)
    decreases |r|
  {
    if |r| > 0 {
      LookupFinds(r[1..], id);
      if r[0].id == id {
        assert Distinct(r) ==> forall i :: 0 < i < |r| ==> r[i].id != id;
      } else {
        assert forall i :: 0 < i < |r| ==> r[i] == r[1..][i - 1];
        assert Distinct(r) ==> Distinct(r[1..]);
      }
    }
  }

  lemma {:induction false} ExcludingKeeps(r: seq<CacheEntry>, id: Str)
    ensures forall e :: e in Excluding(r, id) <==> e in r && e.id != id
    decreases |r|
  {
    if |r| > 0 {
      ExcludingKeeps(r[1..], id);
    }
  }

  lemma {:induction false} ExcludingDistinct(r: seq<CacheEntry>, id: Str)
    requires Distinct(r)
    ensures Distinct(Excluding(r, id))
    decreases |r|
  {
    if |r| > 0 {
      assert Distinct(r[1..]);
      ExcludingDistinct(r[1..], id);
      ExcludingKeeps(r[1..], id);
      assert forall e :: e in Excluding(r[1..], id) ==> e in r[1..];
      assert forall e :: e in r[1..] ==> e.id != r[0].id;
    }
  }

  lemma {:induction false} ExcludingAbsent(r: seq<CacheEntry>, id: Str)
    requires forall i :: 0 <= i < |r| ==> r[i].id != id
    ensures Excluding(r, id) == r
    decreases |r|
  {
    if |r| > 0 {
      ExcludingAbsent(r[1..], id);
      assert r == [r[0]] + r[1..];
    }
  }

  lemma {:induction false} ExcludingTotal(r: seq<CacheEntry>, id: Str)
    requires Distinct(r)
    ensures Total(r) == Total(Excluding(r, id)) + (if Lookup(r, id).Some? then Lookup(r, id).value.bytes else 0)
    decreases |r|
  {
    if |r| > 0 {
      assert Distinct(r[1..]);
      ExcludingTotal(r[1..], id);
      if r[0].id == id {
        ExcludingAbsent(r[1..], id);
        assert [] + Excluding(r[1..], id) == r[1..];
      } else {
        assert Excluding(r, id)[1..] == Excluding(r[1..], id);
      }
    }
  }

  /** The invariant of the list: distinct ids and a total within the budget. */
  predicate Bounded(r: seq<CacheEntry>, maxBytes: nat) {
    Distinct(r) && Total(r) <= maxBytes
  }

  lemma TrimBounded(r: seq<CacheEntry>, incoming: nat, maxBytes: nat)
    requires Distinct(r) && incoming <= maxBytes
    ensures Distinct(Trim(r, incoming, maxBytes)) && Total(Trim(r, incoming, maxBytes)) + incoming <= maxBytes
    ensures forall e :: e in Trim(r, incoming, maxBytes) ==> e in r
  {
    var k := TrimIsShortest(r, incoming, maxBytes);
    assert forall i :: k <= i < |r| ==> r[i] == r[k..][i - k];
  }

  lemma AppendDistinct(r: seq<CacheEntry>, e: CacheEntry)
    requires Distinct(r) && forall d :: d in r ==> d.id != e.id
    ensures Distinct(r + [e]) && Total(r + [e]) == Total(r) + e.bytes
  {
    TotalAppend(r, [e]);
    One(e);
    assert forall i :: 0 <= i < |r| ==> r[i] in r;
  }

  /** Every operation on the list keeps it within the budget. */
  lemma OperationsBounded(r: seq<CacheEntry>, id: Str, offset: nat, e: CacheEntry, maxBytes: nat)
    requires Bounded(r, maxBytes)
    ensures Bounded(AfterGet(r, id, offset), maxBytes)
    ensures Bounded(AfterSet(r, e, maxBytes), maxBytes)
    ensures Bounded(Excluding(r, id), maxBytes)
  {
    hide Distinct, Total, Excluding, Lookup, Trim;
    ExcludingKeeps(r, id);
    ExcludingDistinct(r, id);
    ExcludingTotal(r, id);
    ExcludingKeeps(r, e.id);
    ExcludingDistinct(r, e.id);
    ExcludingTotal(r, e.id);
    LookupFinds(r, id);
    if Lookup(r, id).Some? {
      AppendDistinct(Excluding(r, id), Lookup(r, id).value);
    }
    if e.bytes <= maxBytes {
      TrimBounded(Excluding(r, e.id), e.bytes, maxBytes);
      AppendDistinct(Trim(Excluding(r, e.id), e.bytes, maxBytes), e);
    }
  }

  // ---------------------------------------------------------------------------
  // The cache
  // ---------------------------------------------------------------------------

  /** The entries of an insertion-ordered map. */
  ghost function InOrder(keys: seq<Str>, entries: map<Str, CacheEntry>): (r: seq<CacheEntry>)
    requires forall k :: k in keys ==> k in entries
    ensures |r| == |keys| && forall i :: 0 <= i < |r| ==> r[i] == entries[keys[i]]
  {
    seq(|keys|, i requires 0 <= i < |keys| => assert keys[i] in keys; entries[keys[i]])
  }

  /** The keys of a map in insertion order, each once. */
  ghost predicate Ordering(keys: seq<Str>, entries: map<Str, CacheEntry>) {
    && (forall k :: k in keys <==> k in entries)
    && (forall i, j :: 0 <= i < j < |keys| ==> keys[i] != keys[j])
    && (forall k :: k in entries ==> entries[k].id == k)
  }

  function Removed(keys: seq<Str>, id: Str): seq<Str> {
    if |keys| == 0 then [] else (if keys[0] == id then [] else [keys[0]]) + Removed(keys[1..], id)
  }

  lemma {:induction false} RemovedKeeps(keys: seq<Str>, id: Str)
    ensures forall k :: k in Removed(keys, id) <==> k in keys && k != id
    ensures (forall i, j :: 0 <= i < j < |keys| ==> keys[i] != keys[j]) ==>
              forall i, j :: 0 <= i < j < |Removed(keys, id)| ==> Removed(keys, id)[i] != Removed(keys, id)[j]
    decreases |keys|
  {
    if |keys| > 0 {
      RemovedKeeps(keys[1..], id);
      assert forall k :: k in keys <==> k == keys[0] || k in keys[1..];
      if forall i, j :: 0 <= i < j < |keys| ==> keys[i] != keys[j] {
        assert keys[0] !in keys[1..];
      }
    }
  }

  lemma InOrderFirst(keys: seq<Str>, entries: map<Str, CacheEntry>)
    requires |keys| > 0 && forall k :: k in keys ==> k in entries
    ensures InOrder(keys, entries) == [entries[keys[0]]] + InOrder(keys[1..], entries)
  {
  }

  lemma {:induction false} RemovedInOrder(keys: seq<Str>, entries: map<Str, CacheEntry>, id: Str)
    requires forall k :: k in keys ==> k in entries && entries[k].id == k
    ensures forall k :: k in Removed(keys, id) ==> k in entries - {id}
    ensures InOrder(Removed(keys, id), entries - {id}) == Excluding(InOrder(keys, entries), id)
    decreases |keys|
  {
    hide InOrder;
    RemovedKeeps(keys, id);
    if |keys| > 0 {
      var first, rest := entries[keys[0]], InOrder(keys[1..], entries);
      assert keys[0] in keys;
      RemovedInOrder(keys[1..], entries, id);
      RemovedKeeps(keys[1..], id);
      InOrderFirst(keys, entries);
      assert InOrder(keys, entries)[1..] == rest;
      if keys[0] != id {
        assert Removed(keys, id)[1..] == Removed(keys[1..], id);
        InOrderFirst(Removed(keys, id), entries - {id});
      } else {
        assert Removed(keys, id) == Removed(keys[1..], id);
        assert Excluding(InOrder(keys, entries), id) == Excluding(rest, id);
      }
    }
  }

  lemma InOrderLookup(keys: seq<Str>, entries: map<Str, CacheEntry>, id: Str)
    requires Ordering(keys, entries)
    ensures Lookup(InOrder(keys, entries), id) == if id in entries then Some(entries[id]) else None
  {
    var r := InOrder(keys, entries);
    LookupFinds(r, id);
    OrderingDistinct(keys, entries);
    if id in entries {
      var i :| 0 <= i < |keys| && keys[i] == id;
      assert r[i] in r;
    } else {
      assert forall i :: 0 <= i < |r| ==> keys[i] in keys && r[i].id == keys[i];
    }
  }

  lemma OrderingDistinct(keys: seq<Str>, entries: map<Str, CacheEntry>)
    requires Ordering(keys, entries)
    ensures Distinct(InOrder(keys, entries))
  {
    assert forall i :: 0 <= i < |keys| ==> keys[i] in keys;
  }

  lemma InOrderAppend(keys: seq<Str>, entries: map<Str, CacheEntry>, e: CacheEntry)
    requires Ordering(keys, entries) && e.id !in entries
    ensures Ordering(keys + [e.id], entries[e.id := e])
    ensures InOrder(keys + [e.id], entries[e.id := e]) == InOrder(keys, entries) + [e]
  {
    assert forall i :: 0 <= i < |keys| ==> keys[i] in keys;
    assert forall k :: k in keys + [e.id] ==> k in entries[e.id := e];
  }

  lemma RemovedOrdering(keys: seq<Str>, entries: map<Str, CacheEntry>, id: Str)
    requires Ordering(keys, entries)
    ensures Ordering(Removed(keys, id), entries - {id})
    ensures InOrder(Removed(keys, id), entries - {id}) == Excluding(InOrder(keys, entries), id)
  {
    RemovedKeeps(keys, id);
    RemovedInOrder(keys, entries, id);
  }

  lemma {:induction false} RemovedFirst(keys: seq<Str>)
    requires |keys| > 0 && forall i, j :: 0 <= i < j < |keys| ==> keys[i] != keys[j]
    ensures Removed(keys, keys[0]) == keys[1..]
  {
    NotRemoved(keys[1..], keys[0]);
    assert [] + Removed(keys[1..], keys[0]) == Removed(keys[1..], keys[0]);
  }

  lemma {:induction false} NotRemoved(keys: seq<Str>, id: Str)
    requires id !in keys
    ensures Removed(keys, id) == keys
    decreases |keys|
  {
    if |keys| > 0 {
      NotRemoved(keys[1..], id);
      assert keys == [keys[0]] + keys[1..];
    }
  }

  class DocumentCache {
    const sizeOf: Doc -> nat
    var entries: map<Str, CacheEntry>
    var insertionOrder: seq<Str>  // a Map iterates its keys in this order
    var maxBytesValue: nat
    var bytesValue: nat
    var hits: nat
    var misses: nat
    var evictions: nat

    ghost predicate Valid()
      reads this
    {
      && Ordering(insertionOrder, entries)
      && bytesValue == Total(Recency()) <= maxBytesValue
    }

    /** The entries, least recently used first. */
    ghost function Recency(): seq<CacheEntry>
      requires Ordering(insertionOrder, entries)
      reads this
    {
      InOrder(insertionOrder, entries)
    }

    constructor (maxBytes: nat, sizeOf: Doc -> nat)
      requires maxBytes > 0
      ensures Valid() && Recency() == [] && maxBytesValue == maxBytes && this.sizeOf == sizeOf
      ensures hits == misses == evictions == 0
    {
      entries, insertionOrder := map[], [];
      maxBytesValue, bytesValue := maxBytes, 0;
      hits, misses, evictions := 0, 0, 0;
      this.sizeOf := sizeOf;
    }

    method Get(id: Str, offset: nat) returns (document: Option<Doc>)
      requires Valid()
      modifies this
      ensures Valid() && Recency() == AfterGet(old(Recency()), id, offset)
      ensures Follows(old(Recency()), Got(id, offset), maxBytesValue, Recency())
      ensures var e := Lookup(old(Recency()), id);
              document == if e.Some? && e.value.offset == offset then Some(e.value.document) else None
      ensures hits == old(hits) + (if document.Some? then 1 else 0) && misses == old(misses) + (if document.Some? then 0 else 1)
      ensures unchanged(`maxBytesValue, `evictions)
    {
      hide InOrder, Ordering, Lookup, Excluding, Total, Removed, Follows;
      InOrderLookup(insertionOrder, entries, id);
      OrderingDistinct(insertionOrder, entries);
      GetFollows(Recency(), id, offset, maxBytesValue);
      if id !in entries || entries[id].offset != offset {
        misses := misses + 1;
        return None;
      }
      ghost var before := Recency();
      var entry := entries[id];
      EntryId(insertionOrder, entries, id);
      ExcludingTotal(before, id);
      TotalAppend(Excluding(before, id), [entry]);
      RemovedOrdering(insertionOrder, entries, id);
      InOrderAppend(Removed(insertionOrder, id), entries - {id}, entry);
      insertionOrder := Removed(insertionOrder, id) + [id];
      entries := (entries - {id})[id := entry];
      hits := hits + 1;
      One(entry);
      return Some(entry.document);
    }

    method Set(id: Str, offset: nat, document: Doc)
      requires Valid()
      modifies this
      ensures Valid() && Recency() == AfterSet(old(Recency()), CacheEntry(id, document, offset, sizeOf(document)), maxBytesValue)
      ensures Follows(old(Recency()), Put(CacheEntry(id, document, offset, sizeOf(document))), maxBytesValue, Recency())
      ensures unchanged(`maxBytesValue, `hits, `misses)
    {
      hide InOrder, Ordering, Lookup, Excluding, Total, Removed, Trim, Follows;
      ghost var before := Recency();
      OrderingDistinct(insertionOrder, entries);
      SetFollows(before, CacheEntry(id, document, offset, sizeOf(document)), maxBytesValue);
      InOrderLookup(insertionOrder, entries, id);
      ExcludingKeeps(before, id);
      ExcludingDistinct(before, id);
      ExcludingTotal(before, id);
      RemovedOrdering(insertionOrder, entries, id);
      if id in entries {
        bytesValue := bytesValue - entries[id].bytes;
        insertionOrder := Removed(insertionOrder, id);
        entries := entries - {id};
      } else {
        Absent(insertionOrder, entries, id);
      }
      var bytes := sizeOf(document);
      if bytes > maxBytesValue {
        return;
      }
      EvictToFit(bytes);
      TrimBounded(Excluding(before, id), bytes, maxBytesValue);
      ghost var entry := CacheEntry(id, document, offset, bytes);
      StillAbsent(insertionOrder, entries, Excluding(before, id), id);
      InOrderAppend(insertionOrder, entries, entry);
      TotalAppend(Recency(), [entry]);
      One(entry);
      insertionOrder := insertionOrder + [id];
      entries := entries[id := CacheEntry(id, document, offset, bytes)];
      bytesValue := bytesValue + bytes;
    }

    method Invalidate(id: Str) returns (removed: bool)
      requires Valid()
      modifies this
      ensures Valid() && Recency() == Excluding(old(Recency()), id) && (removed <==> exists e :: e in old(Recency()) && e.id == id)
      ensures Follows(old(Recency()), Forgot(id), maxBytesValue, Recency())
      ensures unchanged(`maxBytesValue, `hits, `misses, `evictions)
    {
      hide InOrder, Ordering, Lookup, Excluding, Total, Removed;
      OrderingDistinct(insertionOrder, entries);
      InOrderLookup(insertionOrder, entries, id);
      LookupFinds(Recency(), id);
      ExcludingMeans(Recency(), id);
      ExcludingTotal(Recency(), id);
      RemovedOrdering(insertionOrder, entries, id);
      if id !in entries {
        Absent(insertionOrder, entries, id);
        return false;
      }
      bytesValue := bytesValue - entries[id].bytes;
      insertionOrder := Removed(insertionOrder, id);
      entries := entries - {id};
      return true;
    }

    method Clear()
      modifies this
      ensures Valid() && Recency() == [] && unchanged(`maxBytesValue, `hits, `misses, `evictions)
    {
      entries, insertionOrder, bytesValue := map[], [], 0;
    }

    method SetMaxBytes(maxBytes: nat) returns (ok: bool)
      requires Valid()
      modifies this
      ensures Valid() && (ok <==> maxBytes > 0)
      ensures ok ==> maxBytesValue == maxBytes && Recency() == Trim(old(Recency()), 0, maxBytes)
      ensures ok ==> Follows(old(Recency()), Resized, maxBytesValue, Recency())
      ensures !ok ==> unchanged(this)
    {
      if maxBytes == 0 {
        return false;
      }
      hide InOrder, Ordering, Total, Trim;
      ghost var before := Recency();
      OrderingDistinct(insertionOrder, entries);
      maxBytesValue := maxBytes;
      EvictToFit(0);
      TrimEvicts(before, 0, maxBytes);
      TrimBounded(before, 0, maxBytes);
      return true;
    }

    /** The eviction loop: oldest first, as long as the incoming bytes do not fit. */
    method EvictToFit(incomingBytes: nat)
      requires Ordering(insertionOrder, entries) && bytesValue == Total(Recency())
      modifies this
      ensures Ordering(insertionOrder, entries) && bytesValue == Total(Recency())
      ensures Recency() == Trim(old(Recency()), incomingBytes, maxBytesValue)
      ensures evictions == old(evictions) + |old(Recency())| - |Recency()|
      ensures unchanged(`maxBytesValue, `hits, `misses)
    {
      hide InOrder, Ordering, Trim, Total;
      while bytesValue + incomingBytes > maxBytesValue && |entries| > 0
        invariant Ordering(insertionOrder, entries) && bytesValue == Total(Recency())
        invariant Trim(Recency(), incomingBytes, maxBytesValue) == Trim(old(Recency()), incomingBytes, maxBytesValue)
        invariant evictions == old(evictions) + |old(Recency())| - |Recency()|
        invariant unchanged(`maxBytesValue, `hits, `misses)
        decreases |insertionOrder|
      {
        NotEmpty(insertionOrder, entries);
        var oldestKey := insertionOrder[0];
        DropOldest(insertionOrder, entries);
        TrimStep(Recency(), incomingBytes, maxBytesValue);
        bytesValue := bytesValue - entries[oldestKey].bytes;
        entries := entries - {oldestKey};
        insertionOrder := insertionOrder[1..];
        evictions := evictions + 1;
      }
      NotEmpty(insertionOrder, entries);
      TrimStep(Recency(), incomingBytes, maxBytesValue);
    }
  }

  lemma TrimStep(r: seq<CacheEntry>, incoming: nat, maxBytes: nat)
    ensures |r| > 0 ==> Total(r) == r[0].bytes + Total(r[1..])
    ensures Trim(r, incoming, maxBytes) == if |r| > 0 && Total(r) + incoming > maxBytes then Trim(r[1..], incoming, maxBytes) else r
  {
  }

  lemma One(e: CacheEntry)
    ensures Total([e]) == e.bytes
  {
  }

  lemma EntryId(keys: seq<Str>, entries: map<Str, CacheEntry>, id: Str)
    requires Ordering(keys, entries) && id in entries
    ensures entries[id].id == id
  {
  }

  lemma Absent(keys: seq<Str>, entries: map<Str, CacheEntry>, id: Str)
    requires Ordering(keys, entries) && id !in entries
    ensures Excluding(InOrder(keys, entries), id) == InOrder(keys, entries)
  {
    NotRemoved(keys, id);
    RemovedOrdering(keys, entries, id);
    assert entries - {id} == entries;
  }

  lemma StillAbsent(keys: seq<Str>, entries: map<Str, CacheEntry>, r: seq<CacheEntry>, id: Str)
    requires Ordering(keys, entries) && (forall e :: e in r ==> e.id != id) && forall e :: e in InOrder(keys, entries) ==> e in r
    ensures id !in entries
  {
    assert forall i :: 0 <= i < |keys| ==> InOrder(keys, entries)[i] in InOrder(keys, entries);
  }

  lemma NotEmpty(keys: seq<Str>, entries: map<Str, CacheEntry>)
    requires Ordering(keys, entries)
    ensures |entries| > 0 <==> |keys| > 0
  {
    if |keys| > 0 {
      assert keys[0] in keys;
    } else {
      assert entries.Keys == {};
    }
  }

  lemma DropOldest(keys: seq<Str>, entries: map<Str, CacheEntry>)
    requires Ordering(keys, entries) && |keys| > 0
    ensures keys[0] in entries && Ordering(keys[1..], entries - {keys[0]})
    ensures InOrder(keys, entries)[0] == entries[keys[0]]
    ensures InOrder(keys[1..], entries - {keys[0]}) == InOrder(keys, entries)[1..]
  {
    assert keys[0] in keys;
    RemovedFirst(keys);
    RemovedKeeps(keys, keys[0]);
  }
}
