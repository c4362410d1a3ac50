/**
 Choosing the candidates of a query: the smallest answer of any index to any predicate that every
 match must satisfy, or all documents. When the candidates miss a match is decided exactly.
 */
module Planner {
  import opened Bytes
  import opened Documents
  import opened Payloads
  import opened DatabaseState
  import opened Queries
  import opened Scanning
  import opened Indexes
  import opened Manager

  /** Which index the plan used, and for which predicate. */
  datatype Used = FullScan | ByPrimary(operators: seq<FieldOperator>) | ByIndex(field: Str, operators: seq<FieldOperator>)

  datatype QueryPlan = QueryPlan(candidates: seq<Candidate>, residualQuery: CompiledQuery, used: Used)

  // ---------------------------------------------------------------------------
  // Answers
  // ---------------------------------------------------------------------------

  /** The primary index looks up each id, repeated ones repeatedly. */
  function Looked(primary: map<Str, nat>, ids: seq<Str>): seq<Candidate> {
    if |ids| == 0 then []
    else (if ids[0] in primary then [Candidate(ids[0], primary[ids[0]])] else []) + Looked(primary, ids[1..])
  }

  lemma {:induction false} LookedUp(primary: map<Str, nat>, ids: seq<Str>)
    ensures forall c :: c in Looked(primary, ids) <==> c.id in ids && c.id in primary && c.offset == primary[c.id]
    decreases |ids|
  {
    if |ids| > 0 {
      LookedUp(primary, ids[1..]);
      assert forall id :: id in ids <==> id == ids[0] || id in ids[1..];
    }
  }

  /** The ids that are stored, at these places of the list, each with its offset and as often as it stands. */
  ghost predicate LookedAt(primary: map<Str, nat>, ids: seq<Str>, candidates: seq<Candidate>, places: seq<nat>) {
    && |places| == |candidates| && (forall i, j :: 0 <= i < j < |places| ==> places[i] < places[j])
    && (forall i :: 0 <= i < |places| ==> places[i] < |ids| && candidates[i].id == ids[places[i]] && candidates[i].id in primary
                                          && candidates[i].offset == primary[candidates[i].id])
    && forall k: nat :: k in places <==> k < |ids| && ids[k] in primary
  }

  lemma {:induction false} LookedExactly(primary: map<Str, nat>, ids: seq<Str>) returns (places: seq<nat>)
    ensures LookedAt(primary, ids, Looked(primary, ids), places)
    decreases |ids|
  {
    hide LookedAt, Looked;
    if |ids| == 0 {
      places := [];
      NothingLooked(primary);
      assert ids == [];
    } else {
      var n := |ids| - 1;
      var before := LookedExactly(primary, ids[..n]);
      LookedMore(primary, ids[..n], ids[n]);
      assert ids == ids[..n] + [ids[n]];
      if ids[n] in primary {
        places := before + [n];
        OneMoreLooked(primary, ids[..n], Looked(primary, ids[..n]), before, ids[n]);
      } else {
        places := before;
        NoneMoreLooked(primary, ids[..n], Looked(primary, ids[..n]), before, ids[n]);
      }
    }
  }

  lemma NothingLooked(primary: map<Str, nat>)
    ensures Looked(primary, []) == [] && LookedAt(primary, [], [], [])
  {
  }

  lemma {:induction false} LookedMore(primary: map<Str, nat>, ids: seq<Str>, id: Str)
    ensures Looked(primary, ids + [id]) == if id in primary then Looked(primary, ids) + [Candidate(id, primary[id])] else Looked(primary, ids)
    decreases |ids|
  {
    if |ids| == 0 {
      assert ids + [id] == [id] && [id][1..] == [];
    } else {
      LookedMore(primary, ids[1..], id);
      assert (ids + [id])[1..] == ids[1..] + [id];
    }
  }

  lemma OneMoreLooked(primary: map<Str, nat>, ids: seq<Str>, candidates: seq<Candidate>, places: seq<nat>, id: Str)
    requires LookedAt(primary, ids, candidates, places) && id in primary
    ensures LookedAt(primary, ids + [id], candidates + [Candidate(id, primary[id])], places + [|ids|])
  {
  }

  lemma NoneMoreLooked(primary: map<Str, nat>, ids: seq<Str>, candidates: seq<Candidate>, places: seq<nat>, id: Str)
    requires LookedAt(primary, ids, candidates, places) && id !in primary
    ensures LookedAt(primary, ids + [id], candidates, places)
  {
  }

  method ScanPrimary(primary: map<Str, nat>, field: Str, operators: seq<FieldOperator>) returns (result: Option<seq<Candidate>>)
    ensures result.Some? <==> field == ID_FIELD && EqualityValues(operators).Some?
    ensures result.Some? ==> result.value == Looked(primary, EqualityValues(operators).value)
  {
    if field != ID_FIELD {
      return None;
    }
    var ids := CollectStringEqualityValues(operators);
    if ids.None? {
      return None;
    }
    var candidates: seq<Candidate> := [];
    assert ids.value[0..] == ids.value;
    for i := 0 to |ids.value|
      invariant Looked(primary, ids.value) == candidates + Looked(primary, ids.value[i..])
    {
      assert ids.value[i..][0] == ids.value[i] && ids.value[i..][1..] == ids.value[i + 1..];
      if ids.value[i] in primary {
        candidates := candidates + [Candidate(ids.value[i], primary[ids.value[i]])];
      }
    }
    result := Some(candidates);
  }

  /** These candidates are what the plan's index answers. */
  ghost predicate Answers(indexes: map<Str, Index>, primary: map<Str, nat>, candidates: seq<Candidate>, used: Used) {
    match used
    case FullScan => Lists(candidates, primary)
    case ByPrimary(operators) => EqualityValues(operators).Some? && candidates == Looked(primary, EqualityValues(operators).value)
    case ByIndex(field, operators) =>
      field in indexes && Scanned(indexes[field], operators).Some? && Lists(candidates, Scanned(indexes[field], operators).value)
  }

  /** The plan asks about a predicate of the query. */
  ghost predicate Asks(query: CompiledQuery, used: Used) {
    match used
    case FullScan => true
    case ByPrimary(operators) => FieldPredicate(ID_FIELD, operators) in FieldPredicates(query)
    case ByIndex(field, operators) => FieldPredicate(field, operators) in FieldPredicates(query)
  }

  /** No index answers this predicate with fewer candidates. */
  predicate NotBeaten(indexes: map<Str, Index>, primary: map<Str, nat>, field: Str, operators: seq<FieldOperator>, n: nat) {
    && (field == ID_FIELD && EqualityValues(operators).Some? ==> n <= |Looked(primary, EqualityValues(operators).value)|)
    && (field in indexes && Scanned(indexes[field], operators).Some? ==> n <= |Scanned(indexes[field], operators).value|)
  }

  /** No index answers this predicate at all. */
  predicate Silent(indexes: map<Str, Index>, field: Str, operators: seq<FieldOperator>) {
    && (field == ID_FIELD ==> EqualityValues(operators).None?)
    && (field in indexes ==> Scanned(indexes[field], operators).None?)
  }

  predicate NoSmaller(indexes: map<Str, Index>, primary: map<Str, nat>, ps: seq<CompiledQuery>, n: nat) {
    forall i :: 0 <= i < |ps| && ps[i].FieldPredicate? ==> NotBeaten(indexes, primary, ps[i].field, ps[i].operators, n)
  }

  predicate AllSilent(indexes: map<Str, Index>, ps: seq<CompiledQuery>) {
    forall i :: 0 <= i < |ps| && ps[i].FieldPredicate? ==> Silent(indexes, ps[i].field, ps[i].operators)
  }

  lemma NoSmallerMore(indexes: map<Str, Index>, primary: map<Str, nat>, ps: seq<CompiledQuery>, p: CompiledQuery, n: nat, m: nat)
    requires p.FieldPredicate? && m <= n && NotBeaten(indexes, primary, p.field, p.operators, m)
    requires NoSmaller(indexes, primary, ps, n) || AllSilent(indexes, ps)
    ensures NoSmaller(indexes, primary, ps + [p], m)
  {
  }

  /** `IndexManager.plan`: every index that can answer a predicate is asked, and the shortest answer is taken. */
  method Plan(manager: IndexManager, primary: map<Str, nat>, query: CompiledQuery) returns (plan: QueryPlan)
    requires manager.Valid()
    ensures plan.residualQuery == query
    ensures Answers(manager.indexesByField, primary, plan.candidates, plan.used) && Asks(query, plan.used)
    ensures if plan.used.FullScan? then AllSilent(manager.indexesByField, FieldPredicates(query))
            else NoSmaller(manager.indexesByField, primary, FieldPredicates(query), |plan.candidates|)
  {
    hide FieldPredicates, EqualityValues, Scanned, Lists, Looked, NoSmaller, NotBeaten, IndexManager.Valid;
    ghost var indexes := manager.indexesByField;
    var predicates := FieldPredicates(query);
    var selected: Option<seq<Candidate>> := None;
    var used := FullScan;
    for i := 0 to |predicates|
      invariant selected.None? <==> used.FullScan?
      invariant selected.Some? ==> Answers(indexes, primary, selected.value, used) && Asks(query, used)
      invariant if selected.Some? then NoSmaller(indexes, primary, predicates[..i], |selected.value|) else AllSilent(indexes, predicates[..i])
    {
      var p := predicates[i];
      assert p in predicates && predicates[..i + 1] == predicates[..i] + [p];
      ghost var before := selected;
      var ids := ScanPrimary(primary, p.field, p.operators);
      if ids.Some? && (selected.None? || |ids.value| < |selected.value|) {
        selected, used := ids, ByPrimary(p.operators);
      }
      var candidates := manager.Scan(p.field, p.operators);
      if candidates.Some? {
        ListsCount(candidates.value, Scanned(indexes[p.field], p.operators).value);
        if selected.None? || |candidates.value| < |selected.value| {
          selected, used := candidates, ByIndex(p.field, p.operators);
        }
      }
      if selected.Some? {
        var n := |selected.value|;
        assert NotBeaten(indexes, primary, p.field, p.operators, n) by {
          BeatenBy(indexes, primary, p.field, p.operators, n);
        }
        NoSmallerMore(indexes, primary, predicates[..i], p, if before.Some? then |before.value| else n, n);
      }
    }
    assert predicates[..|predicates|] == predicates;
    if selected.None? {
      var all := Listing(primary);
      plan := QueryPlan(all, query, FullScan);
    } else {
      plan := QueryPlan(selected.value, query, used);
    }
  }

  /** An answer lists each document once. */
  lemma ListsCount(candidates: seq<Candidate>, found: map<Str, nat>)
    requires Lists(candidates, found)
    ensures |candidates| == |found|
    decreases |candidates|
  {
    if |candidates| == 0 {
      assert found.Keys == {};
    } else {
      var n := |candidates| - 1;
      var last := candidates[n];
      assert last in candidates;
      forall c | c in candidates[..n]
        ensures c.id in found - {last.id} && (found - {last.id})[c.id] == c.offset
      {
        var i :| 0 <= i < n && candidates[i] == c;
        assert c in candidates;
      }
      forall id | id in found - {last.id}
        ensures Candidate(id, found[id]) in candidates[..n]
      {
        var i :| 0 <= i <= n && candidates[i] == Candidate(id, found[id]);
        assert candidates[..n][i] == candidates[i];
      }
      ListsCount(candidates[..n], found - {last.id});
      assert (found - {last.id}).Keys == found.Keys - {last.id};
    }
  }

  lemma BeatenBy(indexes: map<Str, Index>, primary: map<Str, nat>, field: Str, operators: seq<FieldOperator>, n: nat)
    requires field == ID_FIELD && EqualityValues(operators).Some? ==> n <= |Looked(primary, EqualityValues(operators).value)|
    requires field in indexes && Scanned(indexes[field], operators).Some? ==> n <= |Scanned(indexes[field], operators).value|
    ensures NotBeaten(indexes, primary, field, operators, n)
  {
  }

  // ---------------------------------------------------------------------------
  // Planned find and full scan
  // ---------------------------------------------------------------------------

  function Offsets(documents: map<Str, Entry>): map<Str, nat> {
    map id | id in documents :: documents[id].offset
  }

  /** Every document carries its own id. */
  predicate IdsStored(c: Collection) {
    forall id :: id in c.documents ==> Get(c.documents[id].document, ID_FIELD) == Some(Text(id))
  }

  /** What a look at every document finds. */
  function Matching(lib: Library, c: Collection, query: CompiledQuery): set<Str> {
    set id | id in c.documents && Evaluate(lib, query, c.documents[id].document)
  }

  /** What the candidates, filtered, find. */
  function PlannedFind(lib: Library, c: Collection, query: CompiledQuery, candidates: seq<Candidate>): set<Str> {
    set k | k in candidates && k.id in c.documents && Evaluate(lib, query, c.documents[k.id].document) :: k.id
  }

  /** The index the plan used has filed every match, and was not asked to compare with infinity. */
  predicate NothingMissed(lib: Library, c: Collection, query: CompiledQuery, used: Used) {
    match used
    case ByIndex(field, operators) =>
      field in c.indexes
      && forall id :: id in Matching(lib, c, query) ==>
           KeyOf(c.indexes[field].kind, field, c.documents[id].document).Some? && !Unanswerable(c.indexes[field].kind, operators)
    case _ => true
  }

  lemma CandidatesCurrent(c: Collection, candidates: seq<Candidate>, used: Used)
    requires Mirrors(c) && Answers(c.indexes, Offsets(c.documents), candidates, used)
    ensures forall k :: k in candidates ==> k.id in c.documents && k.offset == c.documents[k.id].offset
  {
    hide KeyOf, SelectionOf, Selects;
    match used
    case FullScan =>
    case ByPrimary(operators) => LookedUp(Offsets(c.documents), EqualityValues(operators).value);
    case ByIndex(field, operators) =>
      forall k | k in candidates
        ensures k.id in c.documents && k.offset == c.documents[k.id].offset
      {
        assert k.id in c.indexes[field].postings;
      }
  }

  /** A match the index has filed is a candidate, unless the index was asked to compare with infinity. */
  lemma FiledMatchFound(lib: Library, c: Collection, query: CompiledQuery, candidates: seq<Candidate>, field: Str, operators: seq<FieldOperator>, id: Str)
    requires Mirrors(c) && Answers(c.indexes, Offsets(c.documents), candidates, ByIndex(field, operators)) && Asks(query, ByIndex(field, operators))
    requires id in Matching(lib, c, query)
    ensures id in PlannedFind(lib, c, query, candidates) <==>
              KeyOf(c.indexes[field].kind, field, c.documents[id].document).Some? && !Unanswerable(c.indexes[field].kind, operators)
  {
    hide Evaluate, EvaluateOperator, SelectionOf, Selects, IndexKey, FieldPredicates;
    var document, index := c.documents[id].document, c.indexes[field];
    FieldPredicatesHold(lib, query, document);
    assert Evaluate(lib, FieldPredicate(field, operators), document);
    PredicateHolds(lib, field, operators, document);
    ScannedHas(c, field, operators, candidates, id);
    if IndexKey(index.kind, Get(document, field)).Some? {
      SelectionSound(lib, index.kind, operators, Get(document, field));
    }
  }

  lemma PredicateHolds(lib: Library, field: Str, operators: seq<FieldOperator>, document: Doc)
    requires Evaluate(lib, FieldPredicate(field, operators), document)
    ensures AllHold(lib, operators, Get(document, field))
  {
  }

  /** A document is a candidate of an index when it is filed there under a selected value. */
  lemma ScannedHas(c: Collection, field: Str, operators: seq<FieldOperator>, candidates: seq<Candidate>, id: Str)
    requires Mirrors(c) && field in c.indexes && Scanned(c.indexes[field], operators).Some? && Lists(candidates, Scanned(c.indexes[field], operators).value)
    requires id in c.documents
    ensures SelectionOf(c.indexes[field].kind, operators).Some?
    ensures var key := KeyOf(c.indexes[field].kind, field, c.documents[id].document);
            (exists k :: k in candidates && k.id == id) <==> key.Some? && Selects(SelectionOf(c.indexes[field].kind, operators).value, key.value)
  {
    hide SelectionOf, Selects, KeyOf;
    var found := Scanned(c.indexes[field], operators).value;
    assert c.indexes[field].postings == Postings(c.indexes[field].kind, field, c.documents);
    if id in found {
      assert Candidate(id, found[id]) in candidates;
    }
  }

  /** Candidates filtered by the query are the matches of a full scan exactly when nothing is missed. */
  lemma PlannedFindExact(lib: Library, c: Collection, query: CompiledQuery, candidates: seq<Candidate>, used: Used)
    requires Mirrors(c) && IdsStored(c)
    requires Answers(c.indexes, Offsets(c.documents), candidates, used) && Asks(query, used)
    ensures PlannedFind(lib, c, query, candidates) == Matching(lib, c, query) <==> NothingMissed(lib, c, query, used)
    ensures PlannedFind(lib, c, query, candidates) <= Matching(lib, c, query)
  {
    hide Mirrors, Answers, Asks, Evaluate, Unanswerable, KeyOf, IdsStored;
    match used
    case FullScan => ScanFindsAll(lib, c, query, candidates);
    case ByPrimary(operators) => PrimaryFindsAll(lib, c, query, candidates, operators);
    case ByIndex(field, operators) =>
      AnswersHas(c, candidates, field, operators);
      forall id | id in Matching(lib, c, query)
        ensures id in PlannedFind(lib, c, query, candidates) <==>
                  KeyOf(c.indexes[field].kind, field, c.documents[id].document).Some? && !Unanswerable(c.indexes[field].kind, operators)
      {
        FiledMatchFound(lib, c, query, candidates, field, operators, id);
      }
  }

  lemma AnswersHas(c: Collection, candidates: seq<Candidate>, field: Str, operators: seq<FieldOperator>)
    requires Answers(c.indexes, Offsets(c.documents), candidates, ByIndex(field, operators))
    ensures field in c.indexes
  {
  }

  lemma ScanFindsAll(lib: Library, c: Collection, query: CompiledQuery, candidates: seq<Candidate>)
    requires Answers(c.indexes, Offsets(c.documents), candidates, FullScan)
    ensures PlannedFind(lib, c, query, candidates) == Matching(lib, c, query)
  {
    hide Evaluate;
    forall id | id in Matching(lib, c, query)
      ensures id in PlannedFind(lib, c, query, candidates)
    {
      assert Candidate(id, Offsets(c.documents)[id]) in candidates;
    }
  }

  lemma PrimaryFindsAll(lib: Library, c: Collection, query: CompiledQuery, candidates: seq<Candidate>, operators: seq<FieldOperator>)
    requires IdsStored(c) && Answers(c.indexes, Offsets(c.documents), candidates, ByPrimary(operators)) && Asks(query, ByPrimary(operators))
    ensures PlannedFind(lib, c, query, candidates) == Matching(lib, c, query)
  {
    hide Evaluate, EqualityValuesFrom, EvaluateOperator, FieldPredicates;
    LookedUp(Offsets(c.documents), EqualityValues(operators).value);
    forall id | id in Matching(lib, c, query)
      ensures id in PlannedFind(lib, c, query, candidates)
    {
      var document := c.documents[id].document;
      FieldPredicatesHold(lib, query, document);
      assert Evaluate(lib, FieldPredicate(ID_FIELD, operators), document);
      PredicateHolds(lib, ID_FIELD, operators, document);
      EqualitySound(lib, operators, [], id);
      assert Candidate(id, c.documents[id].offset) in candidates;
    }
  }

  // ---------------------------------------------------------------------------
  // Conditions a caller can check
  // ---------------------------------------------------------------------------

  /** Operands of the index's type, and no infinity among operands or in the field. */
  predicate Typed(c: Collection, used: Used) {
    match used
    case ByIndex(field, operators) =>
      && field in c.indexes && |operators| > 0
      && TypedOperator(c.indexes[field].kind, operators[0]) && !Unanswerable(c.indexes[field].kind, operators)
      && forall id :: id in c.documents ==> !IsInfinite(Get(c.documents[id].document, field))
    case _ => true
  }

  /** With typed operands and finite numbers, a planned find is a full scan. */
  lemma PlannedFindComplete(lib: Library, c: Collection, query: CompiledQuery, candidates: seq<Candidate>, used: Used)
    requires Mirrors(c) && IdsStored(c) && Typed(c, used)
    requires Answers(c.indexes, Offsets(c.documents), candidates, used) && Asks(query, used)
    ensures PlannedFind(lib, c, query, candidates) == Matching(lib, c, query)
  {
    hide Mirrors, Asks, Evaluate, EvaluateOperator, Unanswerable, IdsStored, Lists, FieldPredicates, TypedOperator;
    PlannedFindExact(lib, c, query, candidates, used);
    if used.ByIndex? {
      forall id | id in Matching(lib, c, query)
        ensures KeyOf(c.indexes[used.field].kind, used.field, c.documents[id].document).Some?
      {
        var document := c.documents[id].document;
        AskedHolds(lib, query, used.field, used.operators, document);
        TypedSelection(lib, c.indexes[used.field].kind, used.operators, Get(document, used.field));
      }
    }
  }

  /** An index that can answer the predicate can answer it fully. */
  predicate TypedPredicate(c: Collection, field: Str, operators: seq<FieldOperator>) {
    field in c.indexes && SelectionOf(c.indexes[field].kind, operators).Some? ==>
      && |operators| > 0 && TypedOperator(c.indexes[field].kind, operators[0]) && !Unanswerable(c.indexes[field].kind, operators)
      && forall id :: id in c.documents ==> !IsInfinite(Get(c.documents[id].document, field))
  }

  /**
   Every predicate of the query on an indexed field begins with an operand of the index's type and compares with
   no infinity, and no such field holds one. The query may be nested; below disjunctions anything goes.
   */
  predicate TypedQuery(c: Collection, query: CompiledQuery) {
    var ps := FieldPredicates(query);
    forall i :: 0 <= i < |ps| && ps[i].FieldPredicate? ==> TypedPredicate(c, ps[i].field, ps[i].operators)
  }

  /** Whatever the plan asks of a typed query, it asks with typed operands. */
  lemma TypedUse(c: Collection, query: CompiledQuery, candidates: seq<Candidate>, used: Used)
    requires TypedQuery(c, query) && Asks(query, used) && Answers(c.indexes, Offsets(c.documents), candidates, used)
    ensures Typed(c, used)
  {
    hide FieldPredicates, SelectionOf, TypedOperator, Unanswerable, Lists;
    if used.ByIndex? {
      var ps := FieldPredicates(query);
      var i :| 0 <= i < |ps| && ps[i] == FieldPredicate(used.field, used.operators);
      assert TypedPredicate(c, used.field, used.operators);
    }
  }

  /** A planned find of a typed query, however nested, is a full scan. */
  lemma TypedQueryComplete(lib: Library, c: Collection, query: CompiledQuery, candidates: seq<Candidate>, used: Used)
    requires Mirrors(c) && IdsStored(c) && TypedQuery(c, query)
    requires Answers(c.indexes, Offsets(c.documents), candidates, used) && Asks(query, used)
    ensures PlannedFind(lib, c, query, candidates) == Matching(lib, c, query) && NothingMissed(lib, c, query, used)
  {
    hide Mirrors, IdsStored, TypedQuery, Answers, Asks, Typed, Matching, PlannedFind, NothingMissed;
    TypedUse(c, query, candidates, used);
    PlannedFindComplete(lib, c, query, candidates, used);
    PlannedFindExact(lib, c, query, candidates, used);
  }

  lemma AskedHolds(lib: Library, query: CompiledQuery, field: Str, operators: seq<FieldOperator>, document: Doc)
    requires Asks(query, ByIndex(field, operators)) && Evaluate(lib, query, document)
    ensures AllHold(lib, operators, Get(document, field))
  {
    hide Evaluate, FieldPredicates;
    FieldPredicatesHold(lib, query, document);
    PredicateHolds(lib, field, operators, document);
  }

  /** A number index answers "greater than minus infinity" with nothing, though every number is. */
  lemma InfinityMissed(lib: Library, c: Collection, field: Str, id: Str, n: int, candidates: seq<Candidate>)
    requires Mirrors(c) && IdsStored(c) && field in c.indexes && c.indexes[field].kind == IndexKind.Numbers
    requires Num(n).Finite() && id in c.documents && Get(c.documents[id].document, field) == Some(Numeric(Num(n)))
    requires Answers(c.indexes, Offsets(c.documents), candidates, ByIndex(field, [Gt(Some(Numeric(Num(-INFINITY))))]))
    ensures var query := FieldPredicate(field, [Gt(Some(Numeric(Num(-INFINITY))))]);
            id in Matching(lib, c, query) && PlannedFind(lib, c, query, candidates) != Matching(lib, c, query)
  {
    hide Mirrors, Answers, IdsStored;
    var operators := [Gt(Some(Numeric(Num(-INFINITY))))];
    var query := FieldPredicate(field, operators);
    assert operators[0] == Gt(Some(Numeric(Num(-INFINITY)))) && ComparesWithInfinity(operators[0]);
    assert Unanswerable(IndexKind.Numbers, operators);
    assert id in Matching(lib, c, query);
    PlannedFindExact(lib, c, query, candidates, ByIndex(field, operators));
  }

  /** A string index answers a number with nothing, though a document may hold that number. */
  lemma OtherTypeMissed(lib: Library, c: Collection, field: Str, id: Str, n: int, candidates: seq<Candidate>)
    requires Mirrors(c) && IdsStored(c) && field in c.indexes && c.indexes[field].kind == Strings
    requires Num(n).Finite() && id in c.documents && Get(c.documents[id].document, field) == Some(Numeric(Num(n)))
    requires Answers(c.indexes, Offsets(c.documents), candidates, ByIndex(field, [Eq(Some(Numeric(Num(n))))]))
    ensures var query := FieldPredicate(field, [Eq(Some(Numeric(Num(n))))]);
            id in Matching(lib, c, query) && PlannedFind(lib, c, query, candidates) != Matching(lib, c, query)
  {
    hide Mirrors, Answers, IdsStored;
    var operators := [Eq(Some(Numeric(Num(n))))];
    var query := FieldPredicate(field, operators);
    assert id in Matching(lib, c, query);
    PlannedFindExact(lib, c, query, candidates, ByIndex(field, operators));
  }
}
