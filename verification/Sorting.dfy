/** The order of sorted cursors: a total preorder on documents whose sort fields hold sortable values. */
module Sorting {
  import opened Bytes
  import opened Documents
  import opened Queries

  datatype SortField = SortField(field: Str, ascending: bool)

  /** Comparison of strings by `<` and `>`: negative, zero or positive. */
  type StringOrder = (Str, Str) -> int

  ghost predicate IsTotalOrder(order: StringOrder) {
    && (forall s, t :: order(s, t) == 0 <==> s == t)
    && (forall s, t :: order(s, t) < 0 <==> order(t, s) > 0)
    && (forall s, t, u :: order(s, t) <= 0 && order(t, u) <= 0 ==> order(s, u) <= 0)
  }

  predicate IsMissing(v: QueryValue) {
    v.None? || v.value.Null? || (v.value.Numeric? && v.value.n.NaN?)
  }

  /** Arrays and objects make the comparison throw. */
  predicate SortableValue(v: QueryValue) {
    v.Some? ==> !v.value.List? && !v.value.Object?
  }

  function TypeRank(v: Value): int
    requires SortableValue(Some(v)) && !v.Null?
  {
    if v.Boolean? then 1 else if v.Numeric? then 2 else 3
  }

  function Sign(n: int): int {
    if n < 0 then -1 else if n > 0 then 1 else 0
  }

  function CompareSortValues(order: StringOrder, a: QueryValue, b: QueryValue): int
    requires SortableValue(a) && SortableValue(b)
  {
    if IsMissing(a) && IsMissing(b) then 0
    else if IsMissing(a) then -1
    else if IsMissing(b) then 1
    else if TypeRank(a.value) != TypeRank(b.value) then TypeRank(a.value) - TypeRank(b.value)
    else match (a.value, b.value)
      case (Boolean(x), Boolean(y)) => (if x then 1 else 0) - (if y then 1 else 0)
      case (Numeric(x), Numeric(y)) => Sign(x.key - y.key)
      case (Text(x), Text(y)) => Sign(order(x, y))
      case _ => 0
  }

  predicate SortableBy(document: Doc, fields: seq<SortField>) {
    forall i :: 0 <= i < |fields| ==> SortableValue(Get(document, fields[i].field))
  }

  function CompareDocuments(order: StringOrder, a: Doc, b: Doc, fields: seq<SortField>): int
    requires SortableBy(a, fields) && SortableBy(b, fields)
  {
    if |fields| == 0 then 0
    else
      assert fields[0] in fields;
      var cmp := CompareSortValues(order, Get(a, fields[0].field), Get(b, fields[0].field));
      assert forall i :: 0 <= i < |fields| - 1 ==> fields[1..][i] == fields[i + 1];
      if cmp != 0 then (if fields[0].ascending then cmp else -cmp) else CompareDocuments(order, a, b, fields[1..])
  }

  // ---------------------------------------------------------------------------
  // A total preorder
  // ---------------------------------------------------------------------------

  lemma ValuesMirror(order: StringOrder, a: QueryValue, b: QueryValue)
    requires IsTotalOrder(order) && SortableValue(a) && SortableValue(b)
    ensures CompareSortValues(order, a, b) < 0 <==> CompareSortValues(order, b, a) > 0
    ensures CompareSortValues(order, a, b) == 0 <==> CompareSortValues(order, b, a) == 0
  {
  }

  lemma ValuesTransitive(order: StringOrder, a: QueryValue, b: QueryValue, c: QueryValue)
    requires IsTotalOrder(order) && SortableValue(a) && SortableValue(b) && SortableValue(c)
    requires CompareSortValues(order, a, b) <= 0 && CompareSortValues(order, b, c) <= 0
    ensures CompareSortValues(order, a, c) <= 0
    ensures CompareSortValues(order, a, c) == 0 ==> CompareSortValues(order, a, b) == 0 && CompareSortValues(order, b, c) == 0
  {
    if a.Some? && b.Some? && c.Some? && a.value.Text? && b.value.Text? && c.value.Text? {
      assert order(a.value.s, b.value.s) <= 0 && order(b.value.s, c.value.s) <= 0;
      if order(a.value.s, c.value.s) == 0 {
        assert order(b.value.s, a.value.s) >= 0;
      }
    }
  }

  lemma {:induction false} DocumentsMirror(order: StringOrder, a: Doc, b: Doc, fields: seq<SortField>)
    requires IsTotalOrder(order) && SortableBy(a, fields) && SortableBy(b, fields)
    ensures CompareDocuments(order, a, b, fields) < 0 <==> CompareDocuments(order, b, a, fields) > 0
    ensures CompareDocuments(order, a, b, fields) == 0 <==> CompareDocuments(order, b, a, fields) == 0
    decreases |fields|
  {
    hide IsTotalOrder, CompareSortValues;
    if |fields| > 0 {
      assert forall i :: 0 <= i < |fields| - 1 ==> fields[1..][i] == fields[i + 1];
      ValuesMirror(order, Get(a, fields[0].field), Get(b, fields[0].field));
      DocumentsMirror(order, a, b, fields[1..]);
    }
  }

  /** Transitive for any number of fields and any directions. */
  lemma {:induction false} DocumentsTransitive(order: StringOrder, a: Doc, b: Doc, c: Doc, fields: seq<SortField>)
    requires IsTotalOrder(order) && SortableBy(a, fields) && SortableBy(b, fields) && SortableBy(c, fields)
    requires CompareDocuments(order, a, b, fields) <= 0 && CompareDocuments(order, b, c, fields) <= 0
    ensures CompareDocuments(order, a, c, fields) <= 0
    decreases |fields|
  {
    hide IsTotalOrder, CompareSortValues;
    if |fields| > 0 {
      assert forall i :: 0 <= i < |fields| - 1 ==> fields[1..][i] == fields[i + 1];
      var x, y, z := Get(a, fields[0].field), Get(b, fields[0].field), Get(c, fields[0].field);
      assert SortableValue(x) && SortableValue(y) && SortableValue(z);
      ValuesMirror(order, x, y);
      ValuesMirror(order, y, z);
      ValuesMirror(order, x, z);
      if CompareSortValues(order, x, y) <= 0 && CompareSortValues(order, y, z) <= 0 {
        ValuesTransitive(order, x, y, z);
      }
      if CompareSortValues(order, z, y) <= 0 && CompareSortValues(order, y, x) <= 0 {
        ValuesTransitive(order, z, y, x);
      }
      if CompareSortValues(order, x, y) == 0 && CompareSortValues(order, y, z) == 0 {
        DocumentsTransitive(order, a, b, c, fields[1..]);
      }
    }
  }

  // ---------------------------------------------------------------------------
  // The sorted result set
  // ---------------------------------------------------------------------------

  predicate AllSortable(documents: seq<Doc>, fields: seq<SortField>) {
    forall i :: 0 <= i < |documents| ==> SortableBy(documents[i], fields)
  }

  predicate InOrder(order: StringOrder, documents: seq<Doc>, fields: seq<SortField>)
    requires AllSortable(documents, fields)
  {
    forall i, j :: 0 <= i < j < |documents| ==> CompareDocuments(order, documents[i], documents[j], fields) <= 0
  }

  function Insert(order: StringOrder, d: Doc, sorted: seq<Doc>, fields: seq<SortField>): (r: seq<Doc>)
    requires SortableBy(d, fields) && AllSortable(sorted, fields)
    ensures |r| == |sorted| + 1 && multiset(r) == multiset(sorted) + multiset{d}
    ensures AllSortable(r, fields)
    decreases |sorted|
  {
    if |sorted| == 0 then [d]
    else if CompareDocuments(order, d, sorted[0], fields) <= 0 then [d] + sorted
    else
      var rest := Insert(order, d, sorted[1..], fields);
      assert sorted == [sorted[0]] + sorted[1..];
      [sorted[0]] + rest
  }

  /** The library's stable sort. */
  function SortDocuments(order: StringOrder, documents: seq<Doc>, fields: seq<SortField>): (r: seq<Doc>)
    requires AllSortable(documents, fields)
    ensures |r| == |documents| && multiset(r) == multiset(documents) && AllSortable(r, fields)
    decreases |documents|
  {
    if |documents| == 0 then []
    else
      assert documents == [documents[0]] + documents[1..];
      Insert(order, documents[0], SortDocuments(order, documents[1..], fields), fields)
  }

  predicate Below(order: StringOrder, d: Doc, documents: seq<Doc>, fields: seq<SortField>)
    requires SortableBy(d, fields) && AllSortable(documents, fields)
  {
    forall j :: 0 <= j < |documents| ==> CompareDocuments(order, d, documents[j], fields) <= 0
  }

  lemma PrependInOrder(order: StringOrder, d: Doc, documents: seq<Doc>, fields: seq<SortField>)
    requires SortableBy(d, fields) && AllSortable(documents, fields) && InOrder(order, documents, fields) && Below(order, d, documents, fields)
    ensures AllSortable([d] + documents, fields) && InOrder(order, [d] + documents, fields)
  {
    hide CompareDocuments, SortableBy;
  }

  lemma BelowFirst(order: StringOrder, d: Doc, documents: seq<Doc>, fields: seq<SortField>)
    requires IsTotalOrder(order) && SortableBy(d, fields) && AllSortable(documents, fields) && InOrder(order, documents, fields)
    requires |documents| > 0 ==> CompareDocuments(order, d, documents[0], fields) <= 0
    ensures Below(order, d, documents, fields)
  {
    hide IsTotalOrder, CompareDocuments, SortableBy;
    forall j | 0 < j < |documents|
      ensures CompareDocuments(order, d, documents[j], fields) <= 0
    {
      DocumentsTransitive(order, d, documents[0], documents[j], fields);
    }
  }

  lemma BelowInserted(order: StringOrder, first: Doc, d: Doc, rest: seq<Doc>, fields: seq<SortField>)
    requires SortableBy(first, fields) && SortableBy(d, fields) && AllSortable(rest, fields)
    requires CompareDocuments(order, first, d, fields) <= 0 && Below(order, first, rest, fields)
    ensures Below(order, first, Insert(order, d, rest, fields), fields)
  {
    hide CompareDocuments, SortableBy, Insert;
    var r := Insert(order, d, rest, fields);
    forall j | 0 <= j < |r|
      ensures CompareDocuments(order, first, r[j], fields) <= 0
    {
      assert r[j] in multiset(r);
      if r[j] != d {
        assert r[j] in multiset(rest);
        var k :| 0 <= k < |rest| && rest[k] == r[j];
      }
    }
  }

  lemma {:induction false} InsertInOrder(order: StringOrder, d: Doc, sorted: seq<Doc>, fields: seq<SortField>)
    requires IsTotalOrder(order) && SortableBy(d, fields) && AllSortable(sorted, fields) && InOrder(order, sorted, fields)
    ensures InOrder(order, Insert(order, d, sorted, fields), fields)
    decreases |sorted|
  {
    hide IsTotalOrder, CompareDocuments, SortableBy;
    if |sorted| > 0 {
      DocumentsMirror(order, d, sorted[0], fields);
      if CompareDocuments(order, d, sorted[0], fields) <= 0 {
        BelowFirst(order, d, sorted, fields);
        PrependInOrder(order, d, sorted, fields);
      } else {
        InsertInOrder(order, d, sorted[1..], fields);
        BelowInserted(order, sorted[0], d, sorted[1..], fields);
        PrependInOrder(order, sorted[0], Insert(order, d, sorted[1..], fields), fields);
      }
    }
  }

  /** The sorted set is in order. */
  lemma {:induction false} SortInOrder(order: StringOrder, documents: seq<Doc>, fields: seq<SortField>)
    requires IsTotalOrder(order) && AllSortable(documents, fields)
    ensures InOrder(order, SortDocuments(order, documents, fields), fields)
    decreases |documents|
  {
    hide IsTotalOrder, CompareDocuments;
    if |documents| > 0 {
      SortInOrder(order, documents[1..], fields);
      InsertInOrder(order, documents[0], SortDocuments(order, documents[1..], fields), fields);
    }
  }

  /** The documents that compare equal to one, in their order. */
  function EqualTo(order: StringOrder, d: Doc, documents: seq<Doc>, fields: seq<SortField>): seq<Doc>
    requires SortableBy(d, fields) && AllSortable(documents, fields)
  {
    if |documents| == 0 then []
    else (if CompareDocuments(order, d, documents[0], fields) == 0 then [documents[0]] else []) + EqualTo(order, d, documents[1..], fields)
  }

  lemma {:induction false} InsertStable(order: StringOrder, d: Doc, sorted: seq<Doc>, fields: seq<SortField>, e: Doc)
    requires IsTotalOrder(order) && SortableBy(d, fields) && SortableBy(e, fields) && AllSortable(sorted, fields) && InOrder(order, sorted, fields)
    ensures EqualTo(order, e, Insert(order, d, sorted, fields), fields)
         == (if CompareDocuments(order, e, d, fields) == 0 then [d] else []) + EqualTo(order, e, sorted, fields)
    decreases |sorted|
  {
    hide IsTotalOrder, CompareDocuments;
    if |sorted| > 0 {
      if CompareDocuments(order, d, sorted[0], fields) <= 0 {
        assert ([d] + sorted)[1..] == sorted;
      } else {
        InsertStable(order, d, sorted[1..], fields, e);
        var rest := Insert(order, d, sorted[1..], fields);
        assert ([sorted[0]] + rest)[1..] == rest;
        if CompareDocuments(order, e, d, fields) == 0 && CompareDocuments(order, e, sorted[0], fields) == 0 {
          DocumentsMirror(order, e, d, fields);
          DocumentsTransitive(order, d, e, sorted[0], fields);
        }
      }
    }
  }

  /** The sort is stable: documents that compare equal keep their order. */
  lemma {:induction false} SortStable(order: StringOrder, documents: seq<Doc>, fields: seq<SortField>, e: Doc)
    requires IsTotalOrder(order) && AllSortable(documents, fields) && SortableBy(e, fields)
    ensures EqualTo(order, e, SortDocuments(order, documents, fields), fields) == EqualTo(order, e, documents, fields)
    decreases |documents|
  {
    hide IsTotalOrder, CompareDocuments, InOrder;
    if |documents| > 0 {
      SortStable(order, documents[1..], fields, e);
      SortInOrder(order, documents[1..], fields);
      InsertStable(order, documents[0], SortDocuments(order, documents[1..], fields), fields, e);
    }
  }
}
