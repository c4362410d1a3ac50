/** Compiled queries and what it means for a document to satisfy one. */
module Queries {
  import opened Bytes
  import opened Documents

  /** The value of a field; a missing field is undefined. */
  type QueryValue = Option<Value>

  datatype TypeName = NullType | BooleanType | NumberType | StringType | ArrayType | ObjectType

  datatype FieldOperator =
    | Eq(value: QueryValue)
    | Ne(value: QueryValue)
    | Gt(value: QueryValue)
    | Gte(value: QueryValue)
    | Lt(value: QueryValue)
    | Lte(value: QueryValue)
    | In(values: seq<QueryValue>)
    | Nin(values: seq<QueryValue>)
    | Exists(present: bool)
    | Regex(test: Str -> bool)
    | OfType(types: seq<TypeName>)
    | Not(operators: seq<FieldOperator>)

  datatype CompiledQuery =
    | And(predicates: seq<CompiledQuery>)
    | Or(predicates: seq<CompiledQuery>)
    | Nor(predicates: seq<CompiledQuery>)
    | FieldPredicate(field: Str, operators: seq<FieldOperator>)

  /** What the language library decides: the JSON text of arrays and objects, and the collation of strings. */
  datatype Library = Library(json: Value -> Str, collate: (Str, Str) -> int)

  /** Strict equality for primitives, equality of the JSON text for arrays and for objects. */
  predicate ValuesEqual(lib: Library, left: QueryValue, right: QueryValue) {
    match (left, right)
    case (Some(List(_)), Some(List(_))) => lib.json(left.value) == lib.json(right.value)
    case (Some(Object(_)), Some(Object(_))) => lib.json(left.value) == lib.json(right.value)
    case (Some(Numeric(l)), Some(Numeric(r))) => l.Num? && l == r
    case (Some(Text(l)), Some(Text(r))) => l == r
    case (Some(Boolean(l)), Some(Boolean(r))) => l == r
    case (Some(Null), Some(Null)) => true
    case (None, None) => true
    case _ => false
  }

  /** The sign of the difference; nothing when it is not a number. */
  function CompareNumbers(left: JsNumber, right: JsNumber): Option<int> {
    if left.NaN? || right.NaN? || (left == right && !left.Finite()) then None else Some(left.key - right.key)
  }

  function CompareValues(lib: Library, left: QueryValue, right: QueryValue): Option<int> {
    match (left, right)
    case (Some(Numeric(l)), Some(Numeric(r))) => CompareNumbers(l, r)
    case (Some(Text(l)), Some(Text(r))) => Some(lib.collate(l, r))
    case _ => None
  }

  function JsonTypeOf(value: Value): TypeName {
    match value
    case Null => NullType
    case Boolean(_) => BooleanType
    case Numeric(_) => NumberType
    case Text(_) => StringType
    case List(_) => ArrayType
    case Object(_) => ObjectType
  }

  predicate EvaluateOperator(lib: Library, operator: FieldOperator, value: QueryValue) {
    match operator
    case Exists(present) => value.Some? == present
    case Eq(v) => ValuesEqual(lib, value, v)
    case Ne(v) => !ValuesEqual(lib, value, v)
    case Gt(v) => var c := CompareValues(lib, value, v); c.Some? && c.value > 0
    case Gte(v) => var c := CompareValues(lib, value, v); c.Some? && c.value >= 0
    case Lt(v) => var c := CompareValues(lib, value, v); c.Some? && c.value < 0
    case Lte(v) => var c := CompareValues(lib, value, v); c.Some? && c.value <= 0
    case In(vs) => exists i :: 0 <= i < |vs| && ValuesEqual(lib, value, vs[i])
    case Nin(vs) => forall i :: 0 <= i < |vs| ==> !ValuesEqual(lib, value, vs[i])
    case Regex(test) => value.Some? && value.value.Text? && test(value.value.s)
    case OfType(types) => value.Some? && JsonTypeOf(value.value) in types
    case Not(operators) => !(forall i :: 0 <= i < |operators| ==> EvaluateOperator(lib, operators[i], value))
  }

  predicate AllHold(lib: Library, operators: seq<FieldOperator>, value: QueryValue) {
    forall i :: 0 <= i < |operators| ==> EvaluateOperator(lib, operators[i], value)
  }

  predicate Evaluate(lib: Library, query: CompiledQuery, document: Doc) {
    match query
    case And(ps) => forall i :: 0 <= i < |ps| ==> Evaluate(lib, ps[i], document)
    case Or(ps) => exists i :: 0 <= i < |ps| && Evaluate(lib, ps[i], document)
    case Nor(ps) => forall i :: 0 <= i < |ps| ==> !Evaluate(lib, ps[i], document)
    case FieldPredicate(field, operators) =>
      forall i :: 0 <= i < |operators| ==> EvaluateOperator(lib, operators[i], Get(document, field))
  }

  const MATCH_ALL: CompiledQuery := And([])

  predicate IsMatchAll(query: CompiledQuery) {
    query.And? && |query.predicates| == 0
  }

  // ---------------------------------------------------------------------------
  // The predicates every match must satisfy
  // ---------------------------------------------------------------------------

  /** Conjunctions are flattened; nothing is taken from below a disjunction. */
  function FieldPredicates(query: CompiledQuery): (ps: seq<CompiledQuery>)
    ensures forall p :: p in ps ==> p.FieldPredicate?
    decreases query, 1
  {
    match query
    case FieldPredicate(_, _) => [query]
    case And(ps) => FlatMap(ps)
    case _ => []
  }

  function FlatMap(queries: seq<CompiledQuery>): (ps: seq<CompiledQuery>)
    ensures forall p :: p in ps ==> p.FieldPredicate?
    decreases queries, 0
  {
    if |queries| == 0 then [] else FieldPredicates(queries[0]) + FlatMap(queries[1..])
  }

  /** The predicate is the query, or a conjunct of it at any depth. */
  ghost predicate IsConjunct(query: CompiledQuery, p: CompiledQuery) {
    query == p || (query.And? && exists i :: 0 <= i < |query.predicates| && IsConjunct(query.predicates[i], p))
  }

  /** These are exactly the field predicates that stand in the query under conjunctions only. */
  lemma {:induction false} FieldPredicatesExact(query: CompiledQuery, p: CompiledQuery)
    ensures p in FieldPredicates(query) <==> p.FieldPredicate? && IsConjunct(query, p)
    decreases query, 1
  {
    if query.And? {
      FlatMapExact(query.predicates, p);
    }
  }

  lemma {:induction false} FlatMapExact(queries: seq<CompiledQuery>, p: CompiledQuery)
    ensures p in FlatMap(queries) <==> p.FieldPredicate? && exists i :: 0 <= i < |queries| && IsConjunct(queries[i], p)
    decreases queries, 0
  {
    hide FieldPredicates, IsConjunct;
    if |queries| > 0 {
      FieldPredicatesExact(queries[0], p);
      FlatMapExact(queries[1..], p);
      assert forall i :: 0 < i < |queries| ==> queries[i] == queries[1..][i - 1];
      if i :| 0 <= i < |queries[1..]| && IsConjunct(queries[1..][i], p) {
        assert IsConjunct(queries[i + 1], p);
      }
    }
  }

  /** A document that satisfies the query satisfies each of its field predicates. */
  lemma {:induction false} FieldPredicatesHold(lib: Library, query: CompiledQuery, document: Doc)
    requires Evaluate(lib, query, document)
    ensures forall p :: p in FieldPredicates(query) ==> Evaluate(lib, p, document)
    decreases query, 1
  {
    if query.And? {
      FlatMapHolds(lib, query.predicates, document);
    }
  }

  lemma {:induction false} FlatMapHolds(lib: Library, queries: seq<CompiledQuery>, document: Doc)
    requires forall i :: 0 <= i < |queries| ==> Evaluate(lib, queries[i], document)
    ensures forall p :: p in FlatMap(queries) ==> Evaluate(lib, p, document)
    decreases queries, 0
  {
    if |queries| > 0 {
      FieldPredicatesHold(lib, queries[0], document);
      FlatMapHolds(lib, queries[1..], document);
    }
  }
}
