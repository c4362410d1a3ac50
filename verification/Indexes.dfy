/**
 The two secondary indexes as linked structures: buckets of candidates by value, the value of each
 document, and for numbers the values in order. Each is proved to hold the postings of an `Index`.
 */
module Indexes {
  import opened Bytes
  import opened Documents
  import opened Payloads
  import opened Operations
  import opened DatabaseState
  import opened Queries
  import opened Scanning
  import opened Calls

  /** A document and the offset of its current version. */
  datatype Candidate = Candidate(id: Str, offset: nat)

  /** No document twice, and together exactly these documents at these offsets. */
  predicate Lists(candidates: seq<Candidate>, found: map<Str, nat>) {
    && (forall i, j :: 0 <= i < j < |candidates| ==> candidates[i].id != candidates[j].id)
    && (forall c :: c in candidates ==> c.id in found && found[c.id] == c.offset)
    && (forall id :: id in found ==> Candidate(id, found[id]) in candidates)
  }

  function OffsetsOf(candidates: seq<Candidate>): (offsets: seq<nat>)
    ensures |offsets| == |candidates| && forall i :: 0 <= i < |offsets| ==> offsets[i] == candidates[i].offset
  {
    seq(|candidates|, i requires 0 <= i < |candidates| => candidates[i].offset)
  }

  /** The candidates of a map, in some order. */
  method Listing(found: map<Str, nat>) returns (candidates: seq<Candidate>)
    ensures Lists(candidates, found) && |candidates| == |found|
  {
    candidates := [];
    var rest := found.Keys;
    while rest != {}
      invariant rest <= found.Keys && |candidates| + |rest| == |found.Keys|
      invariant forall i, j :: 0 <= i < j < |candidates| ==> candidates[i].id != candidates[j].id
      invariant forall c :: c in candidates ==> c.id in found && found[c.id] == c.offset && c.id !in rest
      invariant forall id :: id in found && id !in rest ==> Candidate(id, found[id]) in candidates
      decreases |rest|
    {
      var id :| id in rest;
      candidates := candidates + [Candidate(id, found[id])];
      rest := rest - {id};
    }
  }

  // ---------------------------------------------------------------------------
  // Buckets: values to candidates, and documents back to values
  // ---------------------------------------------------------------------------

  type Buckets<V> = map<V, map<Str, nat>>

  /** No bucket is empty, and the two maps are each other's inverse. */
  ghost predicate Linked<V>(values: Buckets<V>, valuesById: map<Str, V>) {
    && (forall v :: v in values ==> exists id :: id in values[v])
    && (forall v, id :: v in values && id in values[v] ==> id in valuesById && valuesById[id] == v)
    && (forall id :: id in valuesById ==> valuesById[id] in values && id in values[valuesById[id]])
  }

  datatype Row<V> = Row(value: V, offset: nat)

  /** What the buckets hold, by document. */
  ghost function Rows<V>(values: Buckets<V>, valuesById: map<Str, V>): map<Str, Row<V>>
    requires Linked(values, valuesById)
  {
    map id | id in valuesById :: Row(valuesById[id], values[valuesById[id]][id])
  }

  function Dropped<V>(values: Buckets<V>, v: V, id: Str): Buckets<V>
    requires v in values
  {
    if values[v].Keys == {id} then values - {v} else values[v := values[v] - {id}]
  }

  lemma DroppedLinked<V>(values: Buckets<V>, valuesById: map<Str, V>, id: Str)
    requires Linked(values, valuesById) && id in valuesById
    ensures valuesById[id] in values
    ensures Linked(Dropped(values, valuesById[id], id), valuesById - {id})
    ensures var d := Dropped(values, valuesById[id], id);
            d.Keys == if valuesById[id] in d then values.Keys else values.Keys - {valuesById[id]}
    ensures Rows(Dropped(values, valuesById[id], id), valuesById - {id}) == Rows(values, valuesById) - {id}
  {
    var v := valuesById[id];
    var d := Dropped(values, v, id);
    forall other | other in valuesById - {id}
      ensures valuesById[other] in d && other in d[valuesById[other]] && d[valuesById[other]][other] == values[valuesById[other]][other]
    {
      if valuesById[other] == v {
        assert other in values[v];
      }
    }
    forall u | u in d
      ensures exists other :: other in d[u]
    {
      var other :| other in values[u] && (u == v ==> other != id);
      assert other in d[u];
    }
  }

  function Bucket<V>(values: Buckets<V>, v: V): map<Str, nat> {
    if v in values then values[v] else map[]
  }

  function Filed<V>(values: Buckets<V>, v: V, id: Str, offset: nat): Buckets<V> {
    values[v := Bucket(values, v)[id := offset]]
  }

  lemma FiledKeys<V>(values: Buckets<V>, v: V, id: Str, offset: nat)
    ensures Filed(values, v, id, offset).Keys == values.Keys + {v}
    ensures v in values ==> values.Keys + {v} == values.Keys
  {
  }

  lemma FiledLinked<V>(values: Buckets<V>, valuesById: map<Str, V>, v: V, id: Str, offset: nat)
    requires Linked(values, valuesById) && id !in valuesById
    ensures Linked(Filed(values, v, id, offset), valuesById[id := v])
    ensures Rows(Filed(values, v, id, offset), valuesById[id := v]) == Rows(values, valuesById)[id := Row(v, offset)]
  {
    var d := Filed(values, v, id, offset);
    assert id in d[v];
    forall u | u in d && u != v
      ensures exists other :: other in d[u]
    {
      var other :| other in values[u];
      assert other in d[u];
    }
  }

  /** The documents filed under some values. */
  function Found<V(==)>(rows: map<Str, Row<V>>, selected: seq<V>): map<Str, nat> {
    map id | id in rows && rows[id].value in selected :: rows[id].offset
  }

  method Collect<V(==)>(values: Buckets<V>, ghost valuesById: map<Str, V>, selected: seq<V>) returns (candidates: seq<Candidate>)
    requires Linked(values, valuesById)
    ensures Lists(candidates, Found(Rows(values, valuesById), selected))
  {
    var found: map<Str, nat> := map[];
    for i := 0 to |selected|
      invariant found == Found(Rows(values, valuesById), selected[..i])
    {
      FoundMore(values, valuesById, selected, i);
      found := found + Bucket(values, selected[i]);
    }
    assert selected[..|selected|] == selected;
    candidates := Listing(found);
  }

  lemma FoundMore<V>(values: Buckets<V>, valuesById: map<Str, V>, selected: seq<V>, i: nat)
    requires Linked(values, valuesById) && i < |selected|
    ensures Found(Rows(values, valuesById), selected[..i + 1]) == Found(Rows(values, valuesById), selected[..i]) + Bucket(values, selected[i])
  {
    assert selected[..i + 1] == selected[..i] + [selected[i]];
    assert forall v :: v in selected[..i + 1] <==> v in selected[..i] || v == selected[i];
  }

  /** A document other than the excluded one in the bucket of a value. */
  method OwnerOf<V(==)>(values: Buckets<V>, ghost valuesById: map<Str, V>, v: V, exclude: Option<Str>) returns (owner: Option<Str>)
    requires Linked(values, valuesById)
    ensures owner.None? ==> forall id :: id in valuesById && valuesById[id] == v ==> exclude == Some(id)
    ensures owner.Some? ==> owner.value in valuesById && valuesById[owner.value] == v && exclude != owner
  {
    var bucket := Bucket(values, v);
    var rest := bucket.Keys;
    while rest != {}
      invariant rest <= bucket.Keys
      invariant forall id :: id in bucket && id !in rest ==> exclude == Some(id)
      decreases |rest|
    {
      var id :| id in rest;
      if exclude != Some(id) {
        return Some(id);
      }
      rest := rest - {id};
    }
    return None;
  }

  method Duplicated<V(==)>(values: Buckets<V>, ghost valuesById: map<Str, V>) returns (duplicate: bool)
    requires Linked(values, valuesById)
    ensures duplicate <==> exists i, j :: i in valuesById && j in valuesById && i != j && valuesById[i] == valuesById[j]
  {
    var rest := values.Keys;
    while rest != {}
      invariant rest <= values.Keys
      invariant forall v :: v in values && v !in rest ==> |values[v]| <= 1
      decreases |rest|
    {
      var v :| v in rest;
      TwoKeys(values[v]);
      if |values[v]| > 1 {
        ghost var i, j :| i in values[v] && j in values[v] && i != j;
        assert valuesById[i] == valuesById[j];
        return true;
      }
      rest := rest - {v};
    }
    forall i, j | i in valuesById && j in valuesById && valuesById[i] == valuesById[j]
      ensures i == j
    {
      TwoKeys(values[valuesById[i]]);
    }
    return false;
  }

  lemma TwoKeys(m: map<Str, nat>)
    ensures |m| > 1 <==> exists i, j :: i in m && j in m && i != j
  {
    if m != map[] {
      var i :| i in m;
      var rest := m.Keys - {i};
      assert |m| == |m.Keys| == |rest| + 1;
      if |m| > 1 {
        var j :| j in rest;
      } else {
        assert rest == {};
        assert m.Keys == {i};
      }
    }
  }

  // ---------------------------------------------------------------------------
  // Strings
  // ---------------------------------------------------------------------------

  function StringPostings(rows: map<Str, Row<Str>>): map<Str, Posting> {
    map id | id in rows :: Posting(StringKey(rows[id].value), rows[id].offset)
  }

  lemma StringRowsChange(rows: map<Str, Row<Str>>, id: Str, row: Row<Str>)
    ensures StringPostings(rows[id := row]) == StringPostings(rows)[id := Posting(StringKey(row.value), row.offset)]
    ensures StringPostings(rows - {id}) == StringPostings(rows) - {id}
  {
  }

  lemma StringsScanned(unique: bool, rows: map<Str, Row<Str>>, operators: seq<FieldOperator>)
    requires EqualityValues(operators).Some?
    ensures Scanned(Index(Strings, unique, StringPostings(rows)), operators) == Some(Found(rows, EqualityValues(operators).value))
  {
    hide EqualityValues;
    var scanned := Scanned(Index(Strings, unique, StringPostings(rows)), operators).value;
    assert scanned == Found(rows, EqualityValues(operators).value);
  }

  class StringIndex {
    ghost const owner: CollectionId  // the collection it belongs to
    const field: Str
    const unique: bool
    var values: Buckets<Str>
    var valuesById: map<Str, Str>

    ghost predicate Valid()
      reads this
    {
      Linked(values, valuesById)
    }

    ghost function Contents(): Index
      requires Valid()
      reads this
    {
      Index(Strings, unique, StringPostings(Rows(values, valuesById)))
    }

    constructor (ghost owner: CollectionId, field: Str, unique: bool)
      ensures Valid() && this.owner == owner && this.field == field && this.unique == unique && Contents() == Index(Strings, unique, map[])
    {
      this.owner, this.field, this.unique := owner, field, unique;
      values, valuesById := map[], map[];
    }

    method Add(document: Doc, candidate: Candidate)
      requires Valid() && candidate.id !in Contents().postings
      modifies this
      ensures Valid() && Contents() == AddPosting(old(Contents()), field, candidate.id, Entry(candidate.offset, document))
    {
      var value := Get(document, field);
      if value.None? || !value.value.Text? {
        return;
      }
      assert valuesById.Keys == Contents().postings.Keys;
      hide Linked, Rows, StringPostings, Filed, Get;
      FiledLinked(values, valuesById, value.value.s, candidate.id, candidate.offset);
      StringRowsChange(Rows(values, valuesById), candidate.id, Row(value.value.s, candidate.offset));
      values := Filed(values, value.value.s, candidate.id, candidate.offset);
      valuesById := valuesById[candidate.id := value.value.s];
    }

    method Remove(id: Str)
      requires Valid()
      modifies this
      ensures Valid() && Contents() == RemovePosting(old(Contents()), id)
    {
      if id !in valuesById {
        assert Contents().postings - {id} == Contents().postings;
        return;
      }
      hide Rows, StringPostings, Dropped;
      DroppedLinked(values, valuesById, id);
      StringRowsChange(Rows(values, valuesById), id, Row([], 0));
      values := Dropped(values, valuesById[id], id);
      valuesById := valuesById - {id};
    }

    method Update(document: Doc, candidate: Candidate)
      requires Valid()
      modifies this
      ensures Valid() && Contents() == UpdatePosting(old(Contents()), field, candidate.id, Entry(candidate.offset, document))
    {
      hide Linked, Rows, StringPostings, KeyOf;
      Remove(candidate.id);
      Add(document, candidate);
    }

    method ClearContents()
      modifies this
      ensures Valid() && Contents() == Index(Strings, unique, map[])
    {
      values, valuesById := map[], map[];
    }

    /** Some other document that holds the value this document has under the index. */
    method FindOwner(document: Doc, exclude: Option<Str>) returns (owner: Option<Str>)
      requires Valid()
      ensures owner.Some? <==> KeyOf(Strings, field, document).Some? && Owned(Contents(), KeyOf(Strings, field, document).value, exclude)
      ensures owner.Some? ==> exclude != owner && owner.value in Contents().postings && Contents().postings[owner.value].key == KeyOf(Strings, field, document).value
    {
      var value := Get(document, field);
      if value.None? || !value.value.Text? {
        return None;
      }
      owner := OwnerOf(values, valuesById, value.value.s, exclude);
      if owner.Some? {
        assert owner.value in Contents().postings;
      }
    }

    method FindDuplicate() returns (duplicate: bool)
      requires Valid()
      ensures duplicate <==> HasDuplicate(Contents())
    {
      hide Linked;
      duplicate := Duplicated(values, valuesById);
      if duplicate {
        var i, j :| i in valuesById && j in valuesById && i != j && valuesById[i] == valuesById[j];
        assert i in Contents().postings && j in Contents().postings;
      }
    }

    /** The documents filed under the values the predicate names, each once. */
    method Scan(predicateField: Str, operators: seq<FieldOperator>) returns (result: Option<seq<Candidate>>)
      requires Valid()
      ensures result.Some? <==> predicateField == field && Scanned(Contents(), operators).Some?
      ensures result.Some? ==> Lists(result.value, Scanned(Contents(), operators).value)
    {
      if predicateField != field {
        return None;
      }
      var equalities := CollectStringEqualityValues(operators);
      hide EqualityValues, Linked, Rows, StringPostings, Lists, Found;
      if equalities.None? {
        return None;
      }
      var candidates := Collect(values, valuesById, equalities.value);
      StringsScanned(unique, Rows(values, valuesById), operators);
      result := Some(candidates);
    }
  }

  // ---------------------------------------------------------------------------
  // Numbers
  // ---------------------------------------------------------------------------

  predicate StrictlyIncreasing(ns: seq<Finite>) {
    forall i, j :: 0 <= i < j < |ns| ==> ns[i] < ns[j]
  }

  /** In order, and exactly these. */
  ghost predicate Sorts(ns: seq<Finite>, keys: set<Finite>) {
    StrictlyIncreasing(ns) && forall n: Finite :: n in ns <==> n in keys
  }

  lemma InsertedSorts(values: seq<Finite>, k: nat, value: Finite, keys: set<Finite>)
    requires Sorts(values, keys) && value !in keys && k <= |values|
    requires forall i :: 0 <= i < k ==> values[i] < value
    requires forall i :: k <= i < |values| ==> values[i] >= value
    ensures Sorts(values[..k] + [value] + values[k..], keys + {value})
  {
    assert values == values[..k] + values[k..];
    assert forall n: Finite :: n in values <==> n in values[..k] || n in values[k..];
    forall i | k <= i < |values|
      ensures values[i] > value
    {
      assert values[i] in values;
    }
  }

  /** `insertSorted`: binary search for the place, then insertion. */
  method InsertSorted(values: seq<Finite>, value: Finite, ghost keys: set<Finite>) returns (result: seq<Finite>)
    requires Sorts(values, keys) && value !in keys
    ensures Sorts(result, keys + {value})
  {
    var low, high := 0, |values|;
    while low < high
      invariant 0 <= low <= high <= |values|
      invariant forall i :: 0 <= i < low ==> values[i] < value
      invariant forall i :: high <= i < |values| ==> values[i] >= value
    {
      var middle := (low + high) / 2;
      if values[middle] < value {
        low := middle + 1;
      } else {
        high := middle;
      }
    }
    InsertedSorts(values, low, value, keys);
    result := values[..low] + [value] + values[low..];
  }

  /** The values without one, as the removal filters them. */
  function Without(ns: seq<Finite>, value: Finite): (r: seq<Finite>)
    ensures forall n :: n in r <==> n in ns && n != value
    decreases |ns|
  {
    if |ns| == 0 then []
    else
      var rest := Without(ns[..|ns| - 1], value);
      var last := ns[|ns| - 1];
      assert forall n :: n in ns <==> n in ns[..|ns| - 1] || n == last;
      if last == value then rest else rest + [last]
  }

  lemma {:induction false} WithoutIncreases(ns: seq<Finite>, value: Finite)
    requires StrictlyIncreasing(ns)
    ensures StrictlyIncreasing(Without(ns, value))
    decreases |ns|
  {
    if |ns| > 0 {
      var pre, last := ns[..|ns| - 1], ns[|ns| - 1];
      WithoutIncreases(pre, value);
      var rest := Without(pre, value);
      forall i | 0 <= i < |rest|
        ensures rest[i] < last
      {
        assert rest[i] in rest && rest[i] in pre;
        var k :| 0 <= k < |pre| && pre[k] == rest[i];
      }
    }
  }

  lemma WithoutSorts(ns: seq<Finite>, keys: set<Finite>, value: Finite)
    requires Sorts(ns, keys)
    ensures Sorts(Without(ns, value), keys - {value})
  {
    WithoutIncreases(ns, value);
  }

  function NumberPostings(rows: map<Str, Row<Finite>>): map<Str, Posting> {
    map id | id in rows :: Posting(NumberKey(rows[id].value), rows[id].offset)
  }

  lemma NumberRowsChange(rows: map<Str, Row<Finite>>, id: Str, row: Row<Finite>)
    ensures NumberPostings(rows[id := row]) == NumberPostings(rows)[id := Posting(NumberKey(row.value), row.offset)]
    ensures NumberPostings(rows - {id}) == NumberPostings(rows) - {id}
  {
  }

  lemma NumberKeyOf(field: Str, document: Doc)
    ensures var value := FiniteOperand(Get(document, field));
            KeyOf(IndexKind.Numbers, field, document) == if value.None? then None else Some(NumberKey(value.value))
  {
  }

  lemma NumberIds(values: Buckets<Finite>, valuesById: map<Str, Finite>)
    requires Linked(values, valuesById)
    ensures NumberPostings(Rows(values, valuesById)).Keys == valuesById.Keys
  {
    hide Linked;
  }

  lemma NumbersScanned(unique: bool, rows: map<Str, Row<Finite>>, operators: seq<FieldOperator>, selected: seq<Finite>)
    requires RangeOf(operators).Some?
    requires forall id :: id in rows ==> (rows[id].value in selected <==> Admits(RangeOf(operators).value, rows[id].value))
    ensures Scanned(Index(IndexKind.Numbers, unique, NumberPostings(rows)), operators) == Some(Found(rows, selected))
  {
    hide RangeOf, Admits;
    var scanned := Scanned(Index(IndexKind.Numbers, unique, NumberPostings(rows)), operators).value;
    assert scanned == Found(rows, selected);
  }

  class NumberIndex {
    ghost const owner: CollectionId  // the collection it belongs to
    const field: Str
    const unique: bool
    var values: Buckets<Finite>
    var valuesById: map<Str, Finite>
    var sortedValues: seq<Finite>

    /** The sorted values are exactly those with a bucket. */
    ghost predicate Valid()
      reads this
    {
      Linked(values, valuesById) && Sorts(sortedValues, values.Keys)
    }

    ghost function Contents(): Index
      requires Valid()
      reads this
    {
      Index(IndexKind.Numbers, unique, NumberPostings(Rows(values, valuesById)))
    }

    constructor (ghost owner: CollectionId, field: Str, unique: bool)
      ensures Valid() && this.owner == owner && this.field == field && this.unique == unique && Contents() == Index(IndexKind.Numbers, unique, map[])
    {
      this.owner, this.field, this.unique := owner, field, unique;
      values, valuesById, sortedValues := map[], map[], [];
    }

    method File(value: Finite, candidate: Candidate)
      requires Valid() && candidate.id !in valuesById
      modifies this
      ensures Valid() && Rows(values, valuesById) == old(Rows(values, valuesById))[candidate.id := Row(value, candidate.offset)]
    {
      hide Linked, Rows, Filed, Sorts;
      FiledLinked(values, valuesById, value, candidate.id, candidate.offset);
      FiledKeys(values, value, candidate.id, candidate.offset);
      if value !in values {
        sortedValues := InsertSorted(sortedValues, value, values.Keys);
      }
      values := Filed(values, value, candidate.id, candidate.offset);
      valuesById := valuesById[candidate.id := value];
    }

    method Add(document: Doc, candidate: Candidate)
      requires Valid() && candidate.id !in Contents().postings
      modifies this
      ensures Valid() && Contents() == AddPosting(old(Contents()), field, candidate.id, Entry(candidate.offset, document))
    {
      hide Linked, Rows, NumberPostings, Get, Sorts, KeyOf, FiniteOperand;
      NumberKeyOf(field, document);
      NumberIds(values, valuesById);
      var value := FiniteOperand(Get(document, field));
      if value.None? {
        return;
      }
      NumberRowsChange(Rows(values, valuesById), candidate.id, Row(value.value, candidate.offset));
      File(value.value, candidate);
    }

    method Remove(id: Str)
      requires Valid()
      modifies this
      ensures Valid() && Contents() == RemovePosting(old(Contents()), id)
    {
      hide Linked, Rows, NumberPostings, Sorts, Dropped;
      NumberIds(values, valuesById);
      if id !in valuesById {
        assert Contents().postings - {id} == Contents().postings;
        return;
      }
      var value := valuesById[id];
      DroppedLinked(values, valuesById, id);
      NumberRowsChange(Rows(values, valuesById), id, Row(0, 0));
      WithoutSorts(sortedValues, values.Keys, value);
      values := Dropped(values, value, id);
      if value !in values {
        sortedValues := Without(sortedValues, value);
      }
      valuesById := valuesById - {id};
    }

    method Update(document: Doc, candidate: Candidate)
      requires Valid()
      modifies this
      ensures Valid() && Contents() == UpdatePosting(old(Contents()), field, candidate.id, Entry(candidate.offset, document))
    {
      hide Linked, Rows, NumberPostings, KeyOf;
      Remove(candidate.id);
      Add(document, candidate);
    }

    method ClearContents()
      modifies this
      ensures Valid() && Contents() == Index(IndexKind.Numbers, unique, map[])
    {
      values, valuesById, sortedValues := map[], map[], [];
    }

    method FindOwner(document: Doc, exclude: Option<Str>) returns (owner: Option<Str>)
      requires Valid()
      ensures owner.Some? <==> KeyOf(IndexKind.Numbers, field, document).Some? && Owned(Contents(), KeyOf(IndexKind.Numbers, field, document).value, exclude)
      ensures owner.Some? ==> exclude != owner && owner.value in Contents().postings && Contents().postings[owner.value].key == KeyOf(IndexKind.Numbers, field, document).value
    {
      var value := FiniteOperand(Get(document, field));
      if value.None? {
        return None;
      }
      owner := OwnerOf(values, valuesById, value.value, exclude);
      if owner.Some? {
        assert owner.value in Contents().postings;
      }
    }

    method FindDuplicate() returns (duplicate: bool)
      requires Valid()
      ensures duplicate <==> HasDuplicate(Contents())
    {
      hide Linked;
      duplicate := Duplicated(values, valuesById);
      if duplicate {
        var i, j :| i in valuesById && j in valuesById && i != j && valuesById[i] == valuesById[j];
        assert i in Contents().postings && j in Contents().postings;
      }
    }

    /** The values within the bounds, in order. */
    method ValuesInRange(range: NumberRange) returns (result: seq<Finite>)
      requires Valid()
      ensures StrictlyIncreasing(result)
      ensures forall n: Finite :: n in result <==> n in values && InBounds(range, n)
    {
      result := [];
      for i := 0 to |sortedValues|
        invariant StrictlyIncreasing(result)
        invariant forall n: Finite :: n in result <==> n in sortedValues[..i] && InBounds(range, n)
        invariant forall k :: 0 <= k < |result| ==> result[k] in sortedValues[..i]
      {
        assert sortedValues[..i + 1] == sortedValues[..i] + [sortedValues[i]];
        if InBounds(range, sortedValues[i]) {
          result := result + [sortedValues[i]];
        }
      }
      assert sortedValues[..|sortedValues|] == sortedValues;
    }

    /** The documents filed under the values the predicate names or within its range, each once. */
    method Scan(predicateField: Str, operators: seq<FieldOperator>) returns (result: Option<seq<Candidate>>)
      requires Valid()
      ensures result.Some? <==> predicateField == field && Scanned(Contents(), operators).Some?
      ensures result.Some? ==> Lists(result.value, Scanned(Contents(), operators).value)
    {
      if predicateField != field {
        return None;
      }
      var range := NumberPredicateRange(operators);
      hide RangeOf, NumberPostings, Lists, Found, InBounds, Sorts;
      if range.None? {
        return None;
      }
      var selected: seq<Finite>;
      if range.value.values.Some? {
        selected := range.value.values.value;
      } else {
        selected := ValuesInRange(range.value);
      }
      var candidates := Collect(values, valuesById, selected);
      NumbersScanned(unique, Rows(values, valuesById), operators, selected);
      result := Some(candidates);
    }
  }
}
