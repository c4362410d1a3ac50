/**
 What a query means as the caller writes it: which documents satisfy it, and which queries are accepted.
 Said of the query itself and of the values in it, without anything that compiles or evaluates queries.
 */
module Meaning {
  import opened Bytes
  import opened Documents
  import opened Queries
  import opened Notation

  // ---------------------------------------------------------------------------
  // Queries as written: any value, with regular expressions in it
  // ---------------------------------------------------------------------------

  datatype Raw =
    | Undefined
    | RawNull
    | RawBoolean(b: bool)
    | RawNumber(n: JsNumber)
    | RawText(s: Str)
    | RawPattern(source: Str, flags: Str)
    | RawList(items: seq<Raw>)
    | RawObject(entries: seq<Entry>)

  datatype Entry = Entry(key: Str, value: Raw)

  /** How the language library builds a regular expression, and splits a string into its units. */
  datatype Syntax = Syntax(regexp: (Str, Str) -> Result<Str -> bool>, units: Str -> seq<Str>)

  function Ascii(s: string): Str {
    seq(|s|, i requires 0 <= i < |s| => s[i] as int % 0x100)
  }

  /** A value to compare with; inside it a regular expression is an object without properties. */
  function ValueOf(raw: Raw): Value {
    match raw
    case Undefined => Null
    case RawNull => Null
    case RawBoolean(b) => Boolean(b)
    case RawNumber(n) => Numeric(n)
    case RawText(s) => Text(s)
    case RawPattern(_, _) => Object([])
    case RawList(items) => List(seq(|items|, i requires 0 <= i < |items| => ValueOf(items[i])))
    case RawObject(entries) => Object(FieldsOf(entries))
  }

  function FieldsOf(entries: seq<Entry>): seq<Field> {
    if |entries| == 0 then []
    else (if entries[0].value.Undefined? then [] else [Field(entries[0].key, ValueOf(entries[0].value))]) + FieldsOf(entries[1..])
  }

  function Operand(raw: Raw): QueryValue {
    if raw.Undefined? then None else Some(ValueOf(raw))
  }

  function Operands(items: seq<Raw>): (vs: seq<QueryValue>)
    ensures |vs| == |items| && forall i :: 0 <= i < |items| ==> vs[i] == Operand(items[i])
  {
    seq(|items|, i requires 0 <= i < |items| => Operand(items[i]))
  }

  // ---------------------------------------------------------------------------
  // Nesting depth, on which everything recurses
  // ---------------------------------------------------------------------------

  function Depth(raw: Raw): nat
    decreases raw, 1
  {
    match raw
    case RawList(items) => 1 + DepthOfItems(items)
    case RawObject(entries) => 1 + DepthOfEntries(entries)
    case _ => 0
  }

  function DepthOfItems(items: seq<Raw>): (n: nat)
    ensures forall i :: 0 <= i < |items| ==> Depth(items[i]) <= n
    decreases items, 0
  {
    if |items| == 0 then 0
    else
      var n, m := Depth(items[0]), DepthOfItems(items[1..]);
      assert forall i :: 0 < i < |items| ==> items[i] == items[1..][i - 1];
      if n > m then n else m
  }

  function DepthOfEntries(entries: seq<Entry>): (n: nat)
    ensures forall i :: 0 <= i < |entries| ==> Depth(entries[i].value) <= n
    decreases entries, 0
  {
    if |entries| == 0 then 0
    else
      var n, m := Depth(entries[0].value), DepthOfEntries(entries[1..]);
      assert forall i :: 0 < i < |entries| ==> entries[i] == entries[1..][i - 1];
      if n > m then n else m
  }

  /** Plain text is its character codes. */
  lemma AsciiText(s: string)
    requires forall i :: 0 <= i < |s| ==> s[i] as int < 0x80
    ensures |Ascii(s)| == |s| && forall i :: 0 <= i < |s| ==> Ascii(s)[i] == s[i] as int
  {
  }

  // ---------------------------------------------------------------------------
  // Values as written
  // ---------------------------------------------------------------------------

  /** The value that is written; what is undefined is null in an array and not there in an object. */
  predicate Reads(raw: Raw, v: Value)
    decreases raw, 1
  {
    match raw
    case Undefined => v == Null
    case RawNull => v == Null
    case RawBoolean(b) => v == Boolean(b)
    case RawNumber(n) => v == Numeric(n)
    case RawText(s) => v == Text(s)
    case RawPattern(_, _) => v == Object([])
    case RawList(items) => v.List? && |v.items| == |items| && forall i :: 0 <= i < |items| ==> Reads(items[i], v.items[i])
    case RawObject(entries) => v.Object? && ReadsFields(entries, v.fields)
  }

  predicate ReadsFields(entries: seq<Entry>, fields: seq<Field>)
    decreases entries, 0
  {
    if |entries| == 0 then fields == []
    else if entries[0].value.Undefined? then ReadsFields(entries[1..], fields)
    else
      && |fields| > 0 && fields[0].key == entries[0].key && Reads(entries[0].value, fields[0].value)
      && ReadsFields(entries[1..], fields[1..])
  }

  lemma {:induction false} ValueReads(raw: Raw, v: Value)
    ensures Reads(raw, v) <==> v == ValueOf(raw)
    decreases raw, 1
  {
    match raw
    case RawList(items) =>
      if v.List? && |v.items| == |items| {
        forall i | 0 <= i < |items|
          ensures Reads(items[i], v.items[i]) <==> v.items[i] == ValueOf(items[i])
        {
          ValueReads(items[i], v.items[i]);
        }
      }
    case RawObject(entries) =>
      if v.Object? {
        FieldsRead(entries, v.fields);
      }
    case _ =>
  }

  lemma {:induction false} FieldsRead(entries: seq<Entry>, fields: seq<Field>)
    ensures ReadsFields(entries, fields) <==> fields == FieldsOf(entries)
    decreases entries, 0
  {
    hide ValueOf, Reads;
    if |entries| > 0 {
      if entries[0].value.Undefined? {
        FieldsRead(entries[1..], fields);
      } else if |fields| > 0 {
        FieldsRead(entries[1..], fields[1..]);
        ValueReads(entries[0].value, fields[0].value);
        assert fields == [fields[0]] + fields[1..];
      }
    }
  }

  /** The operand is missing exactly when nothing is written, and otherwise the value that is written. */
  lemma OperandReads(raw: Raw)
    ensures Operand(raw).None? <==> raw.Undefined?
    ensures Operand(raw).Some? ==> Reads(raw, Operand(raw).value)
  {
    hide ValueOf, Reads;
    ValueReads(raw, ValueOf(raw));
  }

  // ---------------------------------------------------------------------------
  // Values
  // ---------------------------------------------------------------------------

  /** The same primitive value, and not NaN; arrays and objects of the same JSON text; or both missing. */
  predicate Alike(lib: Library, left: QueryValue, right: QueryValue) {
    if left.None? || right.None? then left.None? && right.None?
    else match left.value
      case List(_) => right.value.List? && lib.json(left.value) == lib.json(right.value)
      case Object(_) => right.value.Object? && lib.json(left.value) == lib.json(right.value)
      case _ => left.value == right.value && left.value != Numeric(NaN)
  }

  datatype Relation = Less | Equal | Greater

  /** Two numbers, neither NaN and not the same infinity, or two strings, stand in this relation; nothing else stands in any. */
  predicate Stands(lib: Library, left: QueryValue, right: QueryValue, relation: Relation) {
    if left.None? || right.None? then false
    else match left.value
      case Numeric(l) =>
        && right.value.Numeric? && l.Num? && right.value.n.Num?
        && (match relation
            case Less => l.key < right.value.n.key
            case Equal => l.key == right.value.n.key && l != Num(INFINITY) && l != Num(-INFINITY)
            case Greater => l.key > right.value.n.key)
      case Text(s) =>
        right.value.Text? && (match relation
                              case Less => lib.collate(s, right.value.s) < 0
                              case Equal => lib.collate(s, right.value.s) == 0
                              case Greater => lib.collate(s, right.value.s) > 0)
      case _ => false
  }

  /** The type name fits the value. */
  predicate Names(name: Str, value: Value) {
    || (name == Ascii("null") && value.Null?)
    || ((name == Ascii("boolean") || name == Ascii("bool")) && value.Boolean?)
    || (name == Ascii("number") && value.Numeric?)
    || (name == Ascii("string") && value.Text?)
    || (name == Ascii("array") && value.List?)
    || (name == Ascii("object") && value.Object?)
  }

  predicate TypeNamed(raw: Raw) {
    raw.RawText? && raw.s in [Ascii("null"), Ascii("boolean"), Ascii("bool"), Ascii("number"), Ascii("string"), Ascii("array"), Ascii("object")]
  }

  /** The condition gives `v` under the key; if it has no such key, nothing. */
  ghost predicate Gives(condition: seq<Entry>, key: Str, v: Raw) {
    || (exists i :: 0 <= i < |condition| && condition[i] == Entry(key, v) && forall j :: 0 <= j < i ==> condition[j].key != key)
    || (v.Undefined? && forall j :: 0 <= j < |condition| ==> condition[j].key != key)
  }

  /** A pattern and options denote a test: a regular expression alone, or a source with the options as its flags, all of them among i, m, s and u. */
  ghost predicate Denotes(syntax: Syntax, pattern: Raw, options: Raw, test: Str -> bool) {
    exists source, flags ::
      && syntax.regexp(source, flags) == Ok(test) && (forall f :: f in flags ==> f in [0x69, 0x6d, 0x73, 0x75])
      && ((pattern == RawPattern(source, flags) && options.Undefined?)
          || (pattern == RawText(source) && (options == RawText(flags) || (options.Undefined? && flags == []))))
  }

  ghost predicate IsTest(syntax: Syntax, pattern: Raw, options: Raw) {
    exists test :: Denotes(syntax, pattern, options, test)
  }

  /** Only strings pass a test. */
  ghost predicate Passes(syntax: Syntax, pattern: Raw, options: Raw, value: QueryValue) {
    value.Some? && value.value.Text? && exists test :: Denotes(syntax, pattern, options, test) && test(value.value.s)
  }

  /** An object with a key that begins with a dollar sign. */
  predicate HasOperators(condition: Raw) {
    condition.RawObject? && exists i :: 0 <= i < |condition.entries| && [0x24] <= condition.entries[i].key
  }

  // ---------------------------------------------------------------------------
  // Conditions and queries
  // ---------------------------------------------------------------------------

  ghost predicate AnyAlike(lib: Library, items: seq<Raw>, value: QueryValue) {
    exists i :: 0 <= i < |items| && Alike(lib, value, Operand(items[i]))
  }

  /** The options given beside the pattern. */
  ghost predicate OptionsAre(condition: seq<Entry>, options: Raw) {
    Gives(condition, Ascii("$options"), options)
  }

  /** One entry of a condition holds of a field's value. */
  ghost predicate Holds(syntax: Syntax, lib: Library, condition: seq<Entry>, e: Entry, value: QueryValue)
    decreases Depth(e.value), 2
  {
    var v := e.value;
    if e.key == Ascii("$eq") then Alike(lib, value, Operand(v))
    else if e.key == Ascii("$ne") then !Alike(lib, value, Operand(v))
    else if e.key == Ascii("$gt") then Stands(lib, value, Operand(v), Greater)
    else if e.key == Ascii("$gte") then Stands(lib, value, Operand(v), Greater) || Stands(lib, value, Operand(v), Equal)
    else if e.key == Ascii("$lt") then Stands(lib, value, Operand(v), Less)
    else if e.key == Ascii("$lte") then Stands(lib, value, Operand(v), Less) || Stands(lib, value, Operand(v), Equal)
    else if e.key == Ascii("$in") then v.RawList? && AnyAlike(lib, v.items, value)
    else if e.key == Ascii("$nin") then v.RawList? && !AnyAlike(lib, v.items, value)
    else if e.key == Ascii("$exists") then v == RawBoolean(value.Some?)
    else if e.key == Ascii("$regex") then exists options :: OptionsAre(condition, options) && Passes(syntax, v, options, value)
    else if e.key == Ascii("$options") then true
    else if e.key == Ascii("$type") then
      value.Some? && if v.RawList? then exists i :: 0 <= i < |v.items| && v.items[i].RawText? && Names(v.items[i].s, value.value)
                     else v.RawText? && Names(v.s, value.value)
    else if e.key == Ascii("$not") then !Meets(syntax, lib, v, value)
    else false
  }

  /** A field's value meets a condition: a pattern, operators that all hold, or an equal value. */
  ghost predicate Meets(syntax: Syntax, lib: Library, condition: Raw, value: QueryValue)
    decreases Depth(condition), 1
  {
    if condition.RawPattern? then Passes(syntax, condition, Undefined, value)
    else if HasOperators(condition) then
      forall i :: 0 <= i < |condition.entries| ==> Holds(syntax, lib, condition.entries, condition.entries[i], value)
    else Alike(lib, value, Operand(condition))
  }

  /** `Object.entries` is what it lists: the properties of an object, the positions of an array, the units of a string. */
  ghost predicate Listed(syntax: Syntax, query: Raw, e: Entry) {
    match query
    case RawObject(entries) => e in entries
    case RawList(items) => exists i :: 0 <= i < |items| && IsNumeral(e.key, i) && e.value == items[i]
    case RawText(s) => exists i :: 0 <= i < |syntax.units(s)| && IsNumeral(e.key, i) && e.value == RawText(syntax.units(s)[i])
    case _ => false
  }

  ghost predicate Satisfies(syntax: Syntax, lib: Library, query: Raw, document: Doc)
    decreases Depth(query), 4
  {
    && !query.Undefined? && !query.RawNull?
    && forall e :: Listed(syntax, query, e) ==> (ListedBelow(syntax, query, e); ClauseHolds(syntax, lib, e, document))
  }

  ghost predicate ClauseHolds(syntax: Syntax, lib: Library, e: Entry, document: Doc)
    decreases Depth(e.value), 2
  {
    if e.key == Ascii("$and") then
      e.value.RawList? && forall i :: 0 <= i < |e.value.items| ==> Satisfies(syntax, lib, e.value.items[i], document)
    else if e.key == Ascii("$or") then
      e.value.RawList? && exists i :: 0 <= i < |e.value.items| && Satisfies(syntax, lib, e.value.items[i], document)
    else if e.key == Ascii("$nor") then
      e.value.RawList? && forall i :: 0 <= i < |e.value.items| ==> !Satisfies(syntax, lib, e.value.items[i], document)
    else Meets(syntax, lib, e.value, Get(document, e.key))
  }

  lemma ListedBelow(syntax: Syntax, query: Raw, e: Entry)
    requires Listed(syntax, query, e)
    ensures Depth(e.value) <= Depth(query)
  {
    if query.RawObject? {
      var i :| 0 <= i < |query.entries| && query.entries[i] == e;
    }
  }

  // ---------------------------------------------------------------------------
  // Which queries are accepted
  // ---------------------------------------------------------------------------

  predicate IsComparison(key: Str) {
    key in [Ascii("$eq"), Ascii("$ne"), Ascii("$gt"), Ascii("$gte"), Ascii("$lt"), Ascii("$lte")]
  }

  ghost predicate OperatorAccepted(syntax: Syntax, condition: seq<Entry>, e: Entry)
    decreases Depth(e.value), 2
  {
    var v := e.value;
    if IsComparison(e.key) then true
    else if e.key == Ascii("$in") || e.key == Ascii("$nin") then v.RawList?
    else if e.key == Ascii("$exists") then v.RawBoolean?
    else if e.key == Ascii("$regex") then exists options :: OptionsAre(condition, options) && IsTest(syntax, v, options)
    else if e.key == Ascii("$options") then exists i :: 0 <= i < |condition| && condition[i].key == Ascii("$regex")
    else if e.key == Ascii("$type") then
      if v.RawList? then |v.items| > 0 && forall i :: 0 <= i < |v.items| ==> TypeNamed(v.items[i]) else TypeNamed(v)
    else e.key == Ascii("$not") && v.RawObject? && |v.entries| > 0 && ConditionAccepted(syntax, v)
  }

  ghost predicate ConditionAccepted(syntax: Syntax, condition: Raw)
    decreases Depth(condition), 1
  {
    if condition.RawPattern? then IsTest(syntax, condition, Undefined)
    else HasOperators(condition) ==>
      forall i :: 0 <= i < |condition.entries| ==> OperatorAccepted(syntax, condition.entries, condition.entries[i])
  }

  ghost predicate QueryAccepted(syntax: Syntax, query: Raw)
    decreases Depth(query), 4
  {
    && !query.Undefined? && !query.RawNull?
    && forall e :: Listed(syntax, query, e) ==> (ListedBelow(syntax, query, e); ClauseAccepted(syntax, e))
  }

  ghost predicate ClauseAccepted(syntax: Syntax, e: Entry)
    decreases Depth(e.value), 2
  {
    if e.key == Ascii("$and") || e.key == Ascii("$or") || e.key == Ascii("$nor") then
      e.value.RawList? && forall i :: 0 <= i < |e.value.items| ==> QueryAccepted(syntax, e.value.items[i])
    else ConditionAccepted(syntax, e.value)
  }
}
