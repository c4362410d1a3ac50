/**
 What a sorted result is: the same documents, each pair standing as the first sort field on which
 their values differ demands, and pairs alike on every field as they stood before.
 */
module Ranking {
  import opened Bytes
  import opened Documents
  import opened Queries
  import opened Sorting

  // ---------------------------------------------------------------------------
  // The natural order of values
  // ---------------------------------------------------------------------------

  predicate Nothing(v: QueryValue) {
    v in [None, Some(Null), Some(Numeric(NaN))]
  }

  /** Nothing first, then false, true, the numbers by size and the texts in their order. */
  predicate Precedes(order: StringOrder, a: QueryValue, b: QueryValue) {
    if Nothing(a) || Nothing(b) then Nothing(a) && !Nothing(b)
    else match a.value
      case Boolean(x) => (b == Some(Boolean(true)) && !x) || b.value.Numeric? || b.value.Text?
      case Numeric(x) => (b.value.Numeric? && x.key < b.value.n.key) || b.value.Text?
      case Text(s) => b.value.Text? && order(s, b.value.s) < 0
      case _ => false
  }

  /** Nothing and nothing, or the same value. */
  predicate Level(a: QueryValue, b: QueryValue) {
    (Nothing(a) && Nothing(b)) || a == b
  }

  // ---------------------------------------------------------------------------
  // The order of documents
  // ---------------------------------------------------------------------------

  predicate LevelBelow(a: Doc, b: Doc, fields: seq<SortField>, n: nat)
    requires n <= |fields|
  {
    forall i :: 0 <= i < n ==> Level(Get(a, fields[i].field), Get(b, fields[i].field))
  }

  /** On the first field where they differ, `a` comes first: the smaller value if ascending, the greater if descending. */
  ghost predicate Leads(order: StringOrder, a: Doc, b: Doc, fields: seq<SortField>) {
    exists k :: 0 <= k < |fields| && LevelBelow(a, b, fields, k) && LeadsOn(order, a, b, fields[k])
  }

  predicate LeadsOn(order: StringOrder, a: Doc, b: Doc, f: SortField) {
    if f.ascending then Precedes(order, Get(a, f.field), Get(b, f.field)) else Precedes(order, Get(b, f.field), Get(a, f.field))
  }

  /** The places the sorted documents had before, each once. */
  ghost predicate Places(documents: seq<Doc>, sorted: seq<Doc>, places: seq<nat>) {
    && |places| == |sorted| == |documents|
    && (forall i, j :: 0 <= i < j < |places| ==> places[i] != places[j])
    && forall i :: 0 <= i < |places| ==> places[i] < |documents| && sorted[i] == documents[places[i]]
  }

  /** Of two documents in the result the first leads, or they are level on all fields and stood in this order before. */
  ghost predicate Sorted(order: StringOrder, documents: seq<Doc>, sorted: seq<Doc>, fields: seq<SortField>) {
    exists places :: Places(documents, sorted, places) && Standing(order, sorted, places, fields)
  }

  ghost predicate Standing(order: StringOrder, sorted: seq<Doc>, places: seq<nat>, fields: seq<SortField>) {
    |places| == |sorted| && forall i, j :: 0 <= i < j < |sorted| ==>
      Leads(order, sorted[i], sorted[j], fields) || (LevelBelow(sorted[i], sorted[j], fields, |fields|) && places[i] < places[j])
  }

  // ---------------------------------------------------------------------------
  // The comparison is this order
  // ---------------------------------------------------------------------------

  lemma ValuesMean(order: StringOrder, a: QueryValue, b: QueryValue)
    requires IsTotalOrder(order) && SortableValue(a) && SortableValue(b)
    ensures CompareSortValues(order, a, b) < 0 <==> Precedes(order, a, b)
    ensures CompareSortValues(order, a, b) > 0 <==> Precedes(order, b, a)
    ensures CompareSortValues(order, a, b) == 0 <==> Level(a, b)
  {
  }

  lemma LeadsRest(order: StringOrder, a: Doc, b: Doc, fields: seq<SortField>)
    requires |fields| > 0 && Level(Get(a, fields[0].field), Get(b, fields[0].field))
    requires !LeadsOn(order, a, b, fields[0])
    ensures Leads(order, a, b, fields) <==> Leads(order, a, b, fields[1..])
    ensures LevelBelow(a, b, fields, |fields|) <==> LevelBelow(a, b, fields[1..], |fields| - 1)
  {
    hide Level, Precedes, LeadsOn;
    var rest := fields[1..];
    assert forall k :: 0 <= k < |rest| ==> rest[k] == fields[k + 1];
    forall k: nat | k <= |rest|
      ensures LevelBelow(a, b, rest, k) <==> LevelBelow(a, b, fields, k + 1)
    {
      if LevelBelow(a, b, rest, k) {
        forall i | 0 <= i < k + 1
          ensures Level(Get(a, fields[i].field), Get(b, fields[i].field))
        {
          assert i > 0 ==> fields[i] == rest[i - 1];
        }
      }
    }
    if Leads(order, a, b, fields) {
      var k :| 0 <= k < |fields| && LevelBelow(a, b, fields, k) && LeadsOn(order, a, b, fields[k]);
      assert LevelBelow(a, b, rest, k - 1) && LeadsOn(order, a, b, rest[k - 1]);
    }
    if Leads(order, a, b, rest) {
      var k :| 0 <= k < |rest| && LevelBelow(a, b, rest, k) && LeadsOn(order, a, b, rest[k]);
      assert LevelBelow(a, b, fields, k + 1) && LeadsOn(order, a, b, fields[k + 1]);
    }
  }

  /** Only the first field counts, if they differ there. */
  lemma LeadsFirst(order: StringOrder, a: Doc, b: Doc, fields: seq<SortField>)
    requires |fields| > 0 && !Level(Get(a, fields[0].field), Get(b, fields[0].field))
    ensures Leads(order, a, b, fields) <==> LeadsOn(order, a, b, fields[0])
    ensures !LevelBelow(a, b, fields, |fields|)
  {
    hide Level, Precedes, LeadsOn;
    if LeadsOn(order, a, b, fields[0]) {
      assert LevelBelow(a, b, fields, 0);
    }
  }

  /** The sign of the comparison: the first field on which the values differ decides, in its direction. */
  lemma {:induction false} ComparisonMeans(order: StringOrder, a: Doc, b: Doc, fields: seq<SortField>)
    requires IsTotalOrder(order) && SortableBy(a, fields) && SortableBy(b, fields)
    ensures CompareDocuments(order, a, b, fields) < 0 <==> Leads(order, a, b, fields)
    ensures CompareDocuments(order, a, b, fields) > 0 <==> Leads(order, b, a, fields)
    ensures CompareDocuments(order, a, b, fields) == 0 <==> LevelBelow(a, b, fields, |fields|)
    decreases |fields|
  {
    hide IsTotalOrder, CompareSortValues, Level, Precedes, Leads, LevelBelow;
    if |fields| == 0 {
      NoFields(order, a, b);
      assert fields == [];
    } else {
      var x, y := Get(a, fields[0].field), Get(b, fields[0].field);
      assert forall i :: 0 <= i < |fields| - 1 ==> fields[1..][i] == fields[i + 1];
      ValuesMean(order, x, y);
      LevelSwaps(x, y);
      if Level(x, y) {
        ComparisonMeans(order, a, b, fields[1..]);
        LeadsRest(order, a, b, fields);
        LeadsRest(order, b, a, fields);
      } else {
        LeadsFirst(order, a, b, fields);
        LeadsFirst(order, b, a, fields);
      }
    }
  }

  lemma NoFields(order: StringOrder, a: Doc, b: Doc)
    ensures LevelBelow(a, b, [], 0) && !Leads(order, a, b, []) && !Leads(order, b, a, [])
  {
  }

  lemma LevelSwaps(a: QueryValue, b: QueryValue)
    ensures Level(a, b) <==> Level(b, a)
  {
  }

  // ---------------------------------------------------------------------------
  // The sorted result
  // ---------------------------------------------------------------------------

  /** Behind every lesser document and before all others. */
  lemma {:induction false} InsertPlace(order: StringOrder, d: Doc, sorted: seq<Doc>, fields: seq<SortField>) returns (k: nat)
    requires SortableBy(d, fields) && AllSortable(sorted, fields)
    ensures k <= |sorted| && Insert(order, d, sorted, fields) == sorted[..k] + [d] + sorted[k..]
    ensures forall i :: 0 <= i < k ==> CompareDocuments(order, d, sorted[i], fields) > 0
    ensures k < |sorted| ==> CompareDocuments(order, d, sorted[k], fields) <= 0
    decreases |sorted|
  {
    hide CompareDocuments, SortableBy, Insert;
    InsertStep(order, d, sorted, fields);
    if |sorted| == 0 || CompareDocuments(order, d, sorted[0], fields) <= 0 {
      k := 0;
      assert sorted[..0] + [d] + sorted[0..] == [d] + sorted;
    } else {
      var m := InsertPlace(order, d, sorted[1..], fields);
      k := m + 1;
      Opened(sorted, d, m);
      assert forall i :: 0 < i < |sorted| ==> sorted[i] == sorted[1..][i - 1];
    }
  }

  /** The places after `d`, which stood first, is put at `k`. */
  function PlacesWith(places: seq<nat>, k: nat): seq<nat>
    requires k <= |places|
  {
    Shifted(places[..k]) + [0] + Shifted(places[k..])
  }

  function Shifted(places: seq<nat>): (r: seq<nat>)
    ensures |r| == |places| && forall i :: 0 <= i < |r| ==> r[i] == places[i] + 1
  {
    seq(|places|, i requires 0 <= i < |places| => places[i] + 1)
  }

  lemma InsertPlaces(documents: seq<Doc>, sorted: seq<Doc>, places: seq<nat>, k: nat)
    requires |documents| > 0 && Places(documents[1..], sorted, places) && k <= |sorted|
    ensures Places(documents, sorted[..k] + [documents[0]] + sorted[k..], PlacesWith(places, k))
  {
    var all, now := sorted[..k] + [documents[0]] + sorted[k..], PlacesWith(places, k);
    PlaceOf(places, k);
    forall i | 0 <= i < |now|
      ensures now[i] < |documents| && all[i] == documents[now[i]]
    {
      if i < k {
        assert all[i] == sorted[i] == documents[1..][places[i]];
      } else if i > k {
        assert all[i] == sorted[i - 1] == documents[1..][places[i - 1]];
      }
    }
    forall i, j | 0 <= i < j < |now|
      ensures now[i] != now[j]
    {
    }
  }

  lemma PlaceOf(places: seq<nat>, k: nat)
    requires k <= |places|
    ensures var now := PlacesWith(places, k);
            |now| == |places| + 1 && forall i :: 0 <= i < |now| ==> now[i] == if i < k then places[i] + 1 else if i == k then 0 else places[i - 1] + 1
  {
  }

  lemma Opened(s: seq<Doc>, d: Doc, m: nat)
    requires m < |s|
    ensures [s[0]] + (s[1..][..m] + [d] + s[1..][m..]) == s[..m + 1] + [d] + s[m + 1..]
  {
  }

  lemma InsertStep(order: StringOrder, d: Doc, sorted: seq<Doc>, fields: seq<SortField>)
    requires SortableBy(d, fields) && AllSortable(sorted, fields)
    ensures if |sorted| == 0 then Insert(order, d, sorted, fields) == [d]
            else if CompareDocuments(order, d, sorted[0], fields) <= 0 then Insert(order, d, sorted, fields) == [d] + sorted
            else Insert(order, d, sorted, fields) == [sorted[0]] + Insert(order, d, sorted[1..], fields)
  {
    hide CompareDocuments, SortableBy;
  }

  lemma {:induction false} SortPlaces(order: StringOrder, documents: seq<Doc>, fields: seq<SortField>) returns (places: seq<nat>)
    requires IsTotalOrder(order) && AllSortable(documents, fields)
    ensures Places(documents, SortDocuments(order, documents, fields), places)
    ensures Standing(order, SortDocuments(order, documents, fields), places, fields)
    decreases |documents|
  {
    hide IsTotalOrder, CompareDocuments, Leads, LevelBelow, SortableBy, Insert, Places, Standing, InOrder;
    if |documents| == 0 {
      places := [];
      NothingStands(order, fields);
    } else {
      var d, rest := documents[0], SortDocuments(order, documents[1..], fields);
      var before := SortPlaces(order, documents[1..], fields);
      var k := InsertPlace(order, d, rest, fields);
      SortInOrder(order, documents[1..], fields);
      BehindLeads(order, d, rest, fields, k);
      PlacesCount(documents[1..], rest, before);
      InsertPlaces(documents, rest, before, k);
      InsertStands(order, d, rest, fields, before, k);
      places := PlacesWith(before, k);
    }
  }

  lemma NothingStands(order: StringOrder, fields: seq<SortField>)
    ensures Places([], [], []) && Standing(order, [], [], fields)
  {
  }

  lemma PlacesCount(documents: seq<Doc>, sorted: seq<Doc>, places: seq<nat>)
    requires Places(documents, sorted, places)
    ensures |places| == |sorted| == |documents|
  {
  }

  lemma BehindLeads(order: StringOrder, d: Doc, sorted: seq<Doc>, fields: seq<SortField>, k: nat)
    requires IsTotalOrder(order) && SortableBy(d, fields) && AllSortable(sorted, fields) && InOrder(order, sorted, fields) && k <= |sorted|
    requires forall i :: 0 <= i < k ==> CompareDocuments(order, d, sorted[i], fields) > 0
    requires k < |sorted| ==> CompareDocuments(order, d, sorted[k], fields) <= 0
    ensures forall i :: 0 <= i < k ==> Leads(order, sorted[i], d, fields)
    ensures forall i :: k <= i < |sorted| ==> Leads(order, d, sorted[i], fields) || LevelBelow(d, sorted[i], fields, |fields|)
  {
    hide IsTotalOrder, CompareDocuments, Leads, LevelBelow, SortableBy;
    forall i | 0 <= i < |sorted|
      ensures if i < k then Leads(order, sorted[i], d, fields) else Leads(order, d, sorted[i], fields) || LevelBelow(d, sorted[i], fields, |fields|)
    {
      ComparisonMeans(order, d, sorted[i], fields);
      if i > k {
        DocumentsTransitive(order, d, sorted[k], sorted[i], fields);
      }
    }
  }

  lemma InsertStands(order: StringOrder, d: Doc, sorted: seq<Doc>, fields: seq<SortField>, places: seq<nat>, k: nat)
    requires Standing(order, sorted, places, fields) && k <= |sorted| == |places|
    requires forall i :: 0 <= i < k ==> Leads(order, sorted[i], d, fields)
    requires forall i :: k <= i < |sorted| ==> Leads(order, d, sorted[i], fields) || LevelBelow(d, sorted[i], fields, |fields|)
    ensures Standing(order, sorted[..k] + [d] + sorted[k..], PlacesWith(places, k), fields)
  {
    hide Leads, LevelBelow;
  }

  /**
   The sorted result: a rearrangement in which, of any two documents, the first field on which they differ
   increases if it is ascending and decreases if not, and documents level on every field keep their order.
   */
  lemma SortMeans(order: StringOrder, documents: seq<Doc>, fields: seq<SortField>)
    requires IsTotalOrder(order) && AllSortable(documents, fields)
    ensures Sorted(order, documents, SortDocuments(order, documents, fields), fields)
  {
    hide IsTotalOrder, Standing, Places, SortDocuments;
    var places := SortPlaces(order, documents, fields);
  }
}
