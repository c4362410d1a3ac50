/**
 From a query as the caller writes it to the compiled query that is planned and evaluated. Which
 queries are rejected is decided exactly, and compiling keeps what a query means.
 */
module Compiling {
  import opened Bytes
  import opened Documents
  import opened Queries
  import opened Meaning
  import opened Notation
  import Bson

  function Lookup(entries: seq<Entry>, key: Str): Raw {
    if |entries| == 0 then Undefined else if entries[0].key == key then entries[0].value else Lookup(entries[1..], key)
  }

  predicate Has(entries: seq<Entry>, key: Str) {
    exists i :: 0 <= i < |entries| && entries[i].key == key
  }

  lemma {:induction false} DepthBound(entries: seq<Entry>, n: nat)
    requires forall i :: 0 <= i < |entries| ==> Depth(entries[i].value) <= n
    ensures DepthOfEntries(entries) <= n
    decreases |entries|
  {
    hide Depth;
    if |entries| > 0 {
      DepthBound(entries[1..], n);
    }
  }

  /** `Object.entries`: the positions of an array, the units of a string, nothing for other scalars. */
  function EntriesOf(syntax: Syntax, raw: Raw): (entries: Result<seq<Entry>>)
    ensures entries.Ok? ==> DepthOfEntries(entries.value) <= Depth(raw)
  {
    match raw
    case Undefined => Err("Cannot convert undefined or null to object")
    case RawNull => Err("Cannot convert undefined or null to object")
    case RawObject(entries) => Ok(entries)
    case RawList(items) =>
      var entries := seq(|items|, i requires 0 <= i < |items| => Entry(Bson.Decimal(i), items[i]));
      DepthBound(entries, DepthOfItems(items));
      Ok(entries)
    case RawText(s) =>
      var units := syntax.units(s);
      var entries := seq(|units|, i requires 0 <= i < |units| => Entry(Bson.Decimal(i), RawText(units[i])));
      DepthBound(entries, 0);
      Ok(entries)
    case _ => Ok([])
  }

  // ---------------------------------------------------------------------------
  // Regular expressions and type names
  // ---------------------------------------------------------------------------

  predicate FlagsAllowed(flags: Str) {
    forall f :: f in flags ==> f in Ascii("imsu")
  }

  function BuildRegex(syntax: Syntax, pattern: Raw, options: Raw): Result<Str -> bool> {
    match pattern
    case RawPattern(source, flags) =>
      if !options.Undefined? then Err("$options cannot be combined with a RegExp $regex value")
      else if !FlagsAllowed(flags) then Err("Unsupported $regex flag.")
      else syntax.regexp(source, flags)
    case RawText(source) =>
      if !options.Undefined? && !options.RawText? then Err("$options must be a string of regex flags.")
      else
        var flags := if options.Undefined? then [] else options.s;
        if !FlagsAllowed(flags) then Err("Unsupported $regex flag.") else syntax.regexp(source, flags)
    case _ => Err("$regex must be a string or a RegExp.")
  }

  function CanonicalType(name: Str): Option<TypeName> {
    if name == Ascii("null") then Some(NullType)
    else if name == Ascii("boolean") || name == Ascii("bool") then Some(BooleanType)
    else if name == Ascii("number") then Some(NumberType)
    else if name == Ascii("string") then Some(StringType)
    else if name == Ascii("array") then Some(ArrayType)
    else if name == Ascii("object") then Some(ObjectType)
    else None
  }

  predicate NamesType(raw: Raw) {
    raw.RawText? && CanonicalType(raw.s).Some?
  }

  function TypesFrom(requested: seq<Raw>): Result<seq<TypeName>> {
    if |requested| == 0 then Ok([])
    else if !requested[0].RawText? then Err("$type must be a type name string or an array of them.")
    else if CanonicalType(requested[0].s).None? then Err("Unsupported $type name.")
    else
      var rest :- TypesFrom(requested[1..]);
      Ok([CanonicalType(requested[0].s).value] + rest)
  }

  function Requested(value: Raw): seq<Raw> {
    if value.RawList? then value.items else [value]
  }

  function CompileTypeNames(value: Raw): Result<seq<TypeName>> {
    if |Requested(value)| == 0 then Err("$type must specify at least one type.") else TypesFrom(Requested(value))
  }

  // ---------------------------------------------------------------------------
  // Compiling
  // ---------------------------------------------------------------------------

  predicate IsOperatorObject(condition: Raw) {
    condition.RawObject? && exists i :: 0 <= i < |condition.entries| && |condition.entries[i].key| > 0 && condition.entries[i].key[0] == 0x24
  }

  function CompileFieldOperators(syntax: Syntax, condition: Raw): Result<seq<FieldOperator>>
    decreases Depth(condition), 1, 0
  {
    if condition.RawPattern? then
      var test :- BuildRegex(syntax, condition, Undefined);
      Ok([Regex(test)])
    else if !IsOperatorObject(condition) then Ok([Eq(Operand(condition))])
    else CompileOperators(syntax, condition.entries, condition.entries)
  }

  /** The operators of the remaining entries of a condition. */
  function CompileOperators(syntax: Syntax, condition: seq<Entry>, entries: seq<Entry>): Result<seq<FieldOperator>>
    decreases DepthOfEntries(entries), 3, |entries|
  {
    if |entries| == 0 then Ok([])
    else
      var first :- CompileOperator(syntax, condition, entries[0]);
      var rest :- CompileOperators(syntax, condition, entries[1..]);
      Ok(first + rest)
  }

  function CompileOperator(syntax: Syntax, condition: seq<Entry>, e: Entry): Result<seq<FieldOperator>>
    decreases Depth(e.value), 2, 0
  {
    var v := e.value;
    if e.key == Ascii("$eq") then Ok([Eq(Operand(v))])
    else if e.key == Ascii("$ne") then Ok([Ne(Operand(v))])
    else if e.key == Ascii("$gt") then Ok([Gt(Operand(v))])
    else if e.key == Ascii("$gte") then Ok([Gte(Operand(v))])
    else if e.key == Ascii("$lt") then Ok([Lt(Operand(v))])
    else if e.key == Ascii("$lte") then Ok([Lte(Operand(v))])
    else if e.key == Ascii("$in") then if v.RawList? then Ok([In(Operands(v.items))]) else Err("$in must be an array.")
    else if e.key == Ascii("$nin") then if v.RawList? then Ok([Nin(Operands(v.items))]) else Err("$nin must be an array.")
    else if e.key == Ascii("$exists") then if v.RawBoolean? then Ok([Exists(v.b)]) else Err("$exists must be a boolean.")
    else if e.key == Ascii("$regex") then
      var test :- BuildRegex(syntax, v, Lookup(condition, Ascii("$options")));
      Ok([Regex(test)])
    else if e.key == Ascii("$options") then
      if Has(condition, Ascii("$regex")) then Ok([]) else Err("$options requires a $regex operator.")
    else if e.key == Ascii("$type") then
      var types :- CompileTypeNames(v);
      Ok([OfType(types)])
    else if e.key == Ascii("$not") then
      if v.RawPattern? || (v.RawObject? && |v.entries| == 0) then Err("$not requires at least one operator.")
      else if !v.RawObject? then Err("$not requires an operator expression object.")
      else
        var inner :- CompileFieldOperators(syntax, v);
        Ok([Not(inner)])
    else Err("Unsupported query operator.")
  }

  function CompileQuery(syntax: Syntax, query: Raw): Result<CompiledQuery>
    decreases Depth(query), 4, 0
  {
    var entries :- EntriesOf(syntax, query);
    var predicates :- CompileEntries(syntax, entries);
    Ok(And(predicates))
  }

  function CompileEntries(syntax: Syntax, entries: seq<Entry>): Result<seq<CompiledQuery>>
    decreases DepthOfEntries(entries), 3, |entries|
  {
    if |entries| == 0 then Ok([])
    else
      var first :- CompileEntry(syntax, entries[0]);
      var rest :- CompileEntries(syntax, entries[1..]);
      Ok(first + rest)
  }

  /** A conjunction is spliced into the enclosing one; `$or` and `$nor` stay nodes of their own. */
  function CompileEntry(syntax: Syntax, e: Entry): Result<seq<CompiledQuery>>
    decreases Depth(e.value), 2, 0
  {
    if e.key == Ascii("$and") then CompileLogical(syntax, e.value)
    else if e.key == Ascii("$or") then
      var ps :- CompileLogical(syntax, e.value);
      Ok([Or(ps)])
    else if e.key == Ascii("$nor") then
      var ps :- CompileLogical(syntax, e.value);
      Ok([Nor(ps)])
    else
      var operators :- CompileFieldOperators(syntax, e.value);
      Ok([FieldPredicate(e.key, operators)])
  }

  function CompileLogical(syntax: Syntax, condition: Raw): Result<seq<CompiledQuery>>
    decreases Depth(condition), 1, 0
  {
    if condition.RawList? then CompileAll(syntax, condition.items) else Err("must be an array of queries.")
  }

  function CompileAll(syntax: Syntax, items: seq<Raw>): Result<seq<CompiledQuery>>
    decreases DepthOfItems(items), 5, |items|
  {
    if |items| == 0 then Ok([])
    else
      var first :- CompileQuery(syntax, items[0]);
      var rest :- CompileAll(syntax, items[1..]);
      Ok([first] + rest)
  }

  // ---------------------------------------------------------------------------
  // Conditions
  // ---------------------------------------------------------------------------

  lemma {:induction false} TypesExact(requested: seq<Raw>)
    ensures TypesFrom(requested).Ok? <==> forall i :: 0 <= i < |requested| ==> NamesType(requested[i])
    ensures TypesFrom(requested).Ok? ==>
              forall t :: t in TypesFrom(requested).value <==> exists i :: 0 <= i < |requested| && NamesType(requested[i]) && CanonicalType(requested[i].s) == Some(t)
    decreases |requested|
  {
    hide CanonicalType;
    if |requested| > 0 {
      TypesExact(requested[1..]);
      assert forall i :: 0 < i < |requested| ==> requested[i] == requested[1..][i - 1];
      if TypesFrom(requested).Ok? {
        forall t
          ensures t in TypesFrom(requested).value <==> exists i :: 0 <= i < |requested| && NamesType(requested[i]) && CanonicalType(requested[i].s) == Some(t)
        {
          if t in TypesFrom(requested[1..]).value {
            var i :| 0 <= i < |requested[1..]| && NamesType(requested[1..][i]) && CanonicalType(requested[1..][i].s) == Some(t);
            assert requested[i + 1] == requested[1..][i];
          } else if exists i :: 0 <= i < |requested| && NamesType(requested[i]) && CanonicalType(requested[i].s) == Some(t) {
            var i :| 0 <= i < |requested| && NamesType(requested[i]) && CanonicalType(requested[i].s) == Some(t);
            assert i > 0 ==> requested[1..][i - 1] == requested[i];
          }
        }
      }
    }
  }

  // ---------------------------------------------------------------------------
  // What is evaluated is what is meant
  // ---------------------------------------------------------------------------

  lemma EqualityMeans(lib: Library, left: QueryValue, right: QueryValue)
    ensures ValuesEqual(lib, left, right) <==> Alike(lib, left, right)
  {
  }

  lemma ComparisonMeans(lib: Library, left: QueryValue, right: QueryValue)
    ensures var c := CompareValues(lib, left, right);
            && (c.Some? && c.value < 0 <==> Stands(lib, left, right, Less))
            && (c.Some? && c.value == 0 <==> Stands(lib, left, right, Equal))
            && (c.Some? && c.value > 0 <==> Stands(lib, left, right, Greater))
  {
  }

  lemma TypesApart()
    ensures Ascii("null") != Ascii("boolean") && Ascii("null") != Ascii("bool") && Ascii("null") != Ascii("number") && Ascii("null") != Ascii("string")
    ensures Ascii("null") != Ascii("array") && Ascii("null") != Ascii("object")
    ensures Ascii("boolean") != Ascii("bool") && Ascii("boolean") != Ascii("number") && Ascii("boolean") != Ascii("string")
    ensures Ascii("boolean") != Ascii("array") && Ascii("boolean") != Ascii("object")
    ensures Ascii("bool") != Ascii("number") && Ascii("bool") != Ascii("string") && Ascii("bool") != Ascii("array") && Ascii("bool") != Ascii("object")
    ensures Ascii("number") != Ascii("string") && Ascii("number") != Ascii("array") && Ascii("number") != Ascii("object")
    ensures Ascii("string") != Ascii("array") && Ascii("string") != Ascii("object") && Ascii("array") != Ascii("object")
  {
    assert Ascii("null")[0] == 0x6e && Ascii("boolean")[0] == 0x62 && Ascii("bool")[0] == 0x62 && Ascii("number")[0] == 0x6e;
    assert Ascii("string")[0] == 0x73 && Ascii("array")[0] == 0x61 && Ascii("object")[0] == 0x6f;
    assert |Ascii("null")| == 4 && |Ascii("number")| == 6 && |Ascii("boolean")| == 7 && |Ascii("bool")| == 4;
  }

  lemma TypeMeans(raw: Raw)
    ensures NamesType(raw) <==> TypeNamed(raw)
    ensures NamesType(raw) ==> forall v: Value :: CanonicalType(raw.s) == Some(JsonTypeOf(v)) <==> Names(raw.s, v)
  {
    hide Ascii;
    TypesApart();
  }

  lemma RegexMeans(syntax: Syntax, pattern: Raw, options: Raw)
    ensures forall test :: BuildRegex(syntax, pattern, options) == Ok(test) <==> Denotes(syntax, pattern, options, test)
  {
    hide FlagsAllowed;
    FlagsMean();
    forall test
      ensures BuildRegex(syntax, pattern, options) == Ok(test) <==> Denotes(syntax, pattern, options, test)
    {
      if BuildRegex(syntax, pattern, options) == Ok(test) {
        var source := if pattern.RawPattern? then pattern.source else pattern.s;
        var flags := if pattern.RawPattern? then pattern.flags else if options.Undefined? then [] else options.s;
        assert syntax.regexp(source, flags) == Ok(test) && FlagsAllowed(flags);
      }
    }
  }

  lemma FlagsMean()
    ensures forall flags :: FlagsAllowed(flags) <==> forall f :: f in flags ==> f in [0x69, 0x6d, 0x73, 0x75]
  {
    assert Ascii("imsu") == [0x69, 0x6d, 0x73, 0x75];
  }

  /** A built test is the one that is denoted, and it passes what it should. */
  lemma TestMeans(syntax: Syntax, pattern: Raw, options: Raw, value: QueryValue)
    ensures BuildRegex(syntax, pattern, options).Ok? <==> IsTest(syntax, pattern, options)
    ensures var test := BuildRegex(syntax, pattern, options);
            test.Ok? && value.Some? && value.value.Text? && test.value(value.value.s) <==> Passes(syntax, pattern, options, value)
  {
    hide BuildRegex, Denotes;
    RegexMeans(syntax, pattern, options);
    var test := BuildRegex(syntax, pattern, options);
    if test.Ok? {
      assert Denotes(syntax, pattern, options, test.value);
    }
  }

  lemma {:induction false} LookupMeans(condition: seq<Entry>, key: Str, v: Raw)
    ensures Gives(condition, key, v) <==> v == Lookup(condition, key)
    decreases |condition|
  {
    if |condition| > 0 {
      LookupMeans(condition[1..], key, v);
      var tail := condition[1..];
      assert forall j :: 0 < j < |condition| ==> condition[j] == tail[j - 1];
      if condition[0].key == key {
        assert condition[0] == Entry(key, condition[0].value);
      } else {
        if i :| 0 <= i < |tail| && tail[i] == Entry(key, v) && forall j :: 0 <= j < i ==> tail[j].key != key {
          assert condition[i + 1] == Entry(key, v);
        }
        if i :| 0 <= i < |condition| && condition[i] == Entry(key, v) && forall j :: 0 <= j < i ==> condition[j].key != key {
          assert tail[i - 1] == Entry(key, v);
          assert forall j :: 0 <= j < i - 1 ==> tail[j] == condition[j + 1];
        }
      }
    }
  }

  lemma OptionsMean(condition: seq<Entry>)
    ensures forall options :: OptionsAre(condition, options) <==> options == Lookup(condition, Ascii("$options"))
  {
    hide Lookup, Gives;
    forall options
      ensures OptionsAre(condition, options) <==> options == Lookup(condition, Ascii("$options"))
    {
      LookupMeans(condition, Ascii("$options"), options);
    }
  }

  lemma OperatorsMean(condition: Raw)
    ensures IsOperatorObject(condition) <==> HasOperators(condition)
  {
    if condition.RawObject? {
      assert forall i :: 0 <= i < |condition.entries| ==>
               ([0x24] <= condition.entries[i].key <==> |condition.entries[i].key| > 0 && condition.entries[i].key[0] == 0x24);
    }
  }

  lemma EntriesMean(syntax: Syntax, query: Raw)
    ensures EntriesOf(syntax, query).Ok? <==> !query.Undefined? && !query.RawNull?
    ensures EntriesOf(syntax, query).Ok? ==> forall e :: e in EntriesOf(syntax, query).value <==> Listed(syntax, query, e)
  {
    hide Bson.Decimal, IsNumeral;
    if EntriesOf(syntax, query).Ok? {
      var entries := EntriesOf(syntax, query).value;
      forall e
        ensures e in entries <==> Listed(syntax, query, e)
      {
        if query.RawList? || query.RawText? {
          forall i | 0 <= i < |entries|
            ensures IsNumeral(e.key, i) <==> e.key == entries[i].key
          {
            Bson.DecimalExact(e.key, i);
          }
          if e in entries {
            var i :| 0 <= i < |entries| && entries[i] == e;
          }
          if Listed(syntax, query, e) {
            var i :| 0 <= i < |entries| && IsNumeral(e.key, i) && e.value == entries[i].value;
            assert entries[i] == e;
          }
        }
      }
    }
  }

  /** What one compiled operator must be, for an entry of a condition. */
  ghost predicate CompiledRight(syntax: Syntax, lib: Library, condition: seq<Entry>, e: Entry, value: QueryValue) {
    var operators := CompileOperator(syntax, condition, e);
    && (operators.Ok? <==> OperatorAccepted(syntax, condition, e))
    && (operators.Ok? ==> (AllHold(lib, operators.value, value) <==> Holds(syntax, lib, condition, e, value)))
  }

  lemma ComparisonExact(syntax: Syntax, lib: Library, condition: seq<Entry>, e: Entry, value: QueryValue)
    requires IsComparison(e.key)
    ensures CompiledRight(syntax, lib, condition, e, value)
  {
    hide Ascii, ValuesEqual, CompareValues, Operand, AllHold, Alike, Stands;
    EqualityMeans(lib, value, Operand(e.value));
    ComparisonMeans(lib, value, Operand(e.value));
    AllOfOne(lib, CompileOperator(syntax, condition, e).value, value);
  }

  lemma MembersMean(lib: Library, items: seq<Raw>, value: QueryValue)
    ensures AnyAlike(lib, items, value) <==> exists i :: 0 <= i < |items| && ValuesEqual(lib, value, Operands(items)[i])
  {
    hide Alike, ValuesEqual, Operand;
    forall i | 0 <= i < |items|
      ensures ValuesEqual(lib, value, Operands(items)[i]) <==> Alike(lib, value, Operand(items[i]))
    {
      EqualityMeans(lib, value, Operand(items[i]));
    }
  }

  lemma MembershipExact(syntax: Syntax, lib: Library, condition: seq<Entry>, e: Entry, value: QueryValue)
    requires !IsComparison(e.key) && (e.key == Ascii("$in") || e.key == Ascii("$nin"))
    ensures CompiledRight(syntax, lib, condition, e, value)
  {
    hide Ascii, ValuesEqual, CompareValues, Operand, AllHold, AnyAlike;
    if e.value.RawList? {
      MembersMean(lib, e.value.items, value);
      AllOfOne(lib, CompileOperator(syntax, condition, e).value, value);
    }
  }

  /** Neither a comparison nor a membership. */
  predicate IsOther(key: Str) {
    !IsComparison(key) && key != Ascii("$in") && key != Ascii("$nin")
  }

  lemma RegexExact(syntax: Syntax, lib: Library, condition: seq<Entry>, e: Entry, value: QueryValue)
    requires IsOther(e.key) && e.key != Ascii("$exists") && e.key == Ascii("$regex")
    ensures CompiledRight(syntax, lib, condition, e, value)
  {
    hide Ascii, BuildRegex, AllHold, Passes, IsTest, OptionsAre, Lookup;
    OptionsMean(condition);
    TestMeans(syntax, e.value, Lookup(condition, Ascii("$options")), value);
    if CompileOperator(syntax, condition, e).Ok? {
      AllOfOne(lib, CompileOperator(syntax, condition, e).value, value);
    }
  }

  lemma TypeOperatorExact(syntax: Syntax, lib: Library, condition: seq<Entry>, e: Entry, value: QueryValue)
    requires IsOther(e.key) && e.key !in [Ascii("$exists"), Ascii("$regex"), Ascii("$options")] && e.key == Ascii("$type")
    ensures CompiledRight(syntax, lib, condition, e, value)
  {
    hide Ascii, AllHold, Names, TypeNamed, CompileTypeNames, JsonTypeOf;
    TypeNamesExact(e.value, value);
    if CompileOperator(syntax, condition, e).Ok? {
      AllOfOne(lib, CompileOperator(syntax, condition, e).value, value);
    }
  }

  lemma PlainExact(syntax: Syntax, lib: Library, condition: seq<Entry>, e: Entry, value: QueryValue)
    requires IsOther(e.key) && (e.key == Ascii("$exists") || (e.key !in [Ascii("$regex"), Ascii("$type"), Ascii("$not")]))
    ensures CompiledRight(syntax, lib, condition, e, value)
  {
    hide Ascii, AllHold;
    if CompileOperator(syntax, condition, e).Ok? {
      AllOfOne(lib, CompileOperator(syntax, condition, e).value, value);
    }
  }

  /** One operator is accepted as stated, and its compiled form means what the entry means. */
  lemma {:induction false} OperatorExact(syntax: Syntax, lib: Library, condition: seq<Entry>, e: Entry, value: QueryValue)
    ensures CompiledRight(syntax, lib, condition, e, value)
    decreases Depth(e.value), 2, 0
  {
    hide Ascii, BuildRegex, CanonicalType, ValuesEqual, CompareValues, Operand, TypesFrom, CompileFieldOperators, Meets, ConditionAccepted, AllHold, Requested;
    hide Alike, Stands, Passes, IsTest, OptionsAre, Names, TypeNamed, Lookup, AnyAlike, CompileTypeNames, JsonTypeOf, CompiledRight, CompileOperator;
    if IsComparison(e.key) {
      ComparisonExact(syntax, lib, condition, e, value);
    } else if e.key == Ascii("$in") || e.key == Ascii("$nin") {
      MembershipExact(syntax, lib, condition, e, value);
    } else if e.key == Ascii("$exists") {
      PlainExact(syntax, lib, condition, e, value);
    } else if e.key == Ascii("$regex") {
      RegexExact(syntax, lib, condition, e, value);
    } else if e.key == Ascii("$options") {
      OptionsDiffer();
      PlainExact(syntax, lib, condition, e, value);
    } else if e.key == Ascii("$type") {
      TypeOperatorExact(syntax, lib, condition, e, value);
    } else if e.key == Ascii("$not") {
      if e.value.RawObject? {
        ConditionExact(syntax, lib, e.value, value);
      }
      NotExact(syntax, lib, condition, e, value);
    } else {
      PlainExact(syntax, lib, condition, e, value);
    }
  }

  lemma OptionsDiffer()
    ensures Ascii("$options") !in [Ascii("$regex"), Ascii("$type"), Ascii("$not")]
  {
    assert Ascii("$options")[1] == 0x6f && Ascii("$regex")[1] == 0x72 && Ascii("$type")[1] == 0x74 && Ascii("$not")[1] == 0x6e;
  }

  lemma NotExact(syntax: Syntax, lib: Library, condition: seq<Entry>, e: Entry, value: QueryValue)
    requires IsOther(e.key) && e.key !in [Ascii("$exists"), Ascii("$regex"), Ascii("$options"), Ascii("$type")] && e.key == Ascii("$not")
    requires e.value.RawObject? ==>
               && (CompileFieldOperators(syntax, e.value).Ok? <==> ConditionAccepted(syntax, e.value))
               && (CompileFieldOperators(syntax, e.value).Ok? ==>
                     (AllHold(lib, CompileFieldOperators(syntax, e.value).value, value) <==> Meets(syntax, lib, e.value, value)))
    ensures CompiledRight(syntax, lib, condition, e, value)
  {
    hide Ascii, CompileFieldOperators, Meets, ConditionAccepted, AllHold;
    if e.value.RawObject? {
      NotMeans(lib, CompileFieldOperators(syntax, e.value), value);
    }
    if CompileOperator(syntax, condition, e).Ok? {
      AllOfOne(lib, CompileOperator(syntax, condition, e).value, value);
    }
  }

  /** The type names of an operand compile exactly when each is one, and then name the type of a value exactly when one of them does. */
  lemma TypeNamesExact(v: Raw, value: QueryValue)
    ensures CompileTypeNames(v).Ok? <==>
              if v.RawList? then |v.items| > 0 && forall i :: 0 <= i < |v.items| ==> TypeNamed(v.items[i]) else TypeNamed(v)
    ensures CompileTypeNames(v).Ok? && value.Some? ==>
              (JsonTypeOf(value.value) in CompileTypeNames(v).value <==>
               if v.RawList? then exists i :: 0 <= i < |v.items| && v.items[i].RawText? && Names(v.items[i].s, value.value)
               else v.RawText? && Names(v.s, value.value))
  {
    hide CanonicalType, TypesFrom, Names, TypeNamed, NamesType, JsonTypeOf;
    var requested := Requested(v);
    TypesExact(requested);
    forall i | 0 <= i < |requested|
      ensures NamesType(requested[i]) <==> TypeNamed(requested[i])
      ensures NamesType(requested[i]) ==> requested[i].RawText?
      ensures NamesType(requested[i]) && value.Some? ==>
                (CanonicalType(requested[i].s) == Some(JsonTypeOf(value.value)) <==> Names(requested[i].s, value.value))
    {
      TypeMeans(requested[i]);
      NamedIsText(requested[i]);
    }
    assert !v.RawList? ==> requested[0] == v;
  }

  lemma NamedIsText(raw: Raw)
    ensures NamesType(raw) ==> raw.RawText?
  {
  }

  lemma NotMeans(lib: Library, operators: Result<seq<FieldOperator>>, value: QueryValue)
    ensures operators.Ok? ==> (EvaluateOperator(lib, Not(operators.value), value) <==> !AllHold(lib, operators.value, value))
  {
  }

  lemma AllOfOne(lib: Library, operators: seq<FieldOperator>, value: QueryValue)
    requires |operators| <= 1
    ensures AllHold(lib, operators, value) <==> |operators| == 0 || EvaluateOperator(lib, operators[0], value)
  {
    hide EvaluateOperator;
  }

  lemma AllHoldAppend(lib: Library, operators: seq<FieldOperator>, more: seq<FieldOperator>, value: QueryValue)
    ensures AllHold(lib, operators + more, value) <==> AllHold(lib, operators, value) && AllHold(lib, more, value)
  {
    hide EvaluateOperator;
    var all := operators + more;
    assert forall i :: 0 <= i < |more| ==> all[|operators| + i] == more[i];
    assert forall i :: 0 <= i < |operators| ==> all[i] == operators[i];
    assert forall i :: |operators| <= i < |all| ==> all[i] == more[i - |operators|];
  }

  lemma {:induction false} OperatorsExact(syntax: Syntax, lib: Library, condition: seq<Entry>, entries: seq<Entry>, value: QueryValue)
    ensures CompileOperators(syntax, condition, entries).Ok? <==> forall i :: 0 <= i < |entries| ==> OperatorAccepted(syntax, condition, entries[i])
    ensures CompileOperators(syntax, condition, entries).Ok? ==>
              (AllHold(lib, CompileOperators(syntax, condition, entries).value, value)
               <==> forall i :: 0 <= i < |entries| ==> Holds(syntax, lib, condition, entries[i], value))
    decreases DepthOfEntries(entries), 3, |entries|
  {
    hide OperatorAccepted, Holds, AllHold, CompileOperator;
    if |entries| == 0 {
      NoneHold(lib, value);
    } else {
      OperatorExact(syntax, lib, condition, entries[0], value);
      OperatorsExact(syntax, lib, condition, entries[1..], value);
      assert forall i :: 0 < i < |entries| ==> entries[i] == entries[1..][i - 1];
      assert forall i :: 0 <= i < |entries[1..]| ==> entries[1..][i] == entries[i + 1];
      if CompileOperators(syntax, condition, entries).Ok? {
        AllHoldAppend(lib, CompileOperator(syntax, condition, entries[0]).value, CompileOperators(syntax, condition, entries[1..]).value, value);
      }
    }
  }

  lemma NoneHold(lib: Library, value: QueryValue)
    ensures AllHold(lib, [], value)
  {
  }

  /** A condition is accepted as stated, and its compiled operators mean what it means. */
  lemma {:induction false} ConditionExact(syntax: Syntax, lib: Library, condition: Raw, value: QueryValue)
    ensures CompileFieldOperators(syntax, condition).Ok? <==> ConditionAccepted(syntax, condition)
    ensures CompileFieldOperators(syntax, condition).Ok? ==>
              (AllHold(lib, CompileFieldOperators(syntax, condition).value, value) <==> Meets(syntax, lib, condition, value))
    decreases Depth(condition), 1, 0
  {
    hide BuildRegex, ValuesEqual, Operand, CompileOperators, OperatorAccepted, Holds, Alike, Passes, IsTest, IsOperatorObject, HasOperators;
    OperatorsMean(condition);
    TestMeans(syntax, condition, Undefined, value);
    OperatorObjects(condition);
    EqualityMeans(lib, value, Operand(condition));
    if condition.RawPattern? {
      if CompileFieldOperators(syntax, condition).Ok? {
        AllOfOne(lib, CompileFieldOperators(syntax, condition).value, value);
      }
    } else if IsOperatorObject(condition) {
      OperatorsExact(syntax, lib, condition.entries, condition.entries, value);
    } else {
      AllOfOne(lib, [Eq(Operand(condition))], value);
    }
  }

  // ---------------------------------------------------------------------------
  // Queries
  // ---------------------------------------------------------------------------

  predicate AllMatch(lib: Library, predicates: seq<CompiledQuery>, document: Doc) {
    forall i :: 0 <= i < |predicates| ==> Evaluate(lib, predicates[i], document)
  }

  lemma AllMatchAppend(lib: Library, predicates: seq<CompiledQuery>, more: seq<CompiledQuery>, document: Doc)
    ensures AllMatch(lib, predicates + more, document) <==> AllMatch(lib, predicates, document) && AllMatch(lib, more, document)
  {
    hide Evaluate;
    var all := predicates + more;
    assert forall i :: 0 <= i < |more| ==> all[|predicates| + i] == more[i];
    assert forall i :: 0 <= i < |predicates| ==> all[i] == predicates[i];
    assert forall i :: |predicates| <= i < |all| ==> all[i] == more[i - |predicates|];
  }

  /** Each query of a list, one by one. */
  lemma {:induction false} AllExact(syntax: Syntax, lib: Library, items: seq<Raw>, document: Doc)
    ensures CompileAll(syntax, items).Ok? <==> forall i :: 0 <= i < |items| ==> QueryAccepted(syntax, items[i])
    ensures CompileAll(syntax, items).Ok? ==>
              var ps := CompileAll(syntax, items).value;
              |ps| == |items| && forall i :: 0 <= i < |items| ==> (Evaluate(lib, ps[i], document) <==> Satisfies(syntax, lib, items[i], document))
    decreases DepthOfItems(items), 5, |items|
  {
    hide QueryAccepted, Satisfies, Evaluate, CompileQuery;
    if |items| > 0 {
      CompileExact(syntax, lib, items[0], document);
      AllExact(syntax, lib, items[1..], document);
      assert forall i :: 0 < i < |items| ==> items[i] == items[1..][i - 1];
      assert forall i :: 0 <= i < |items[1..]| ==> items[1..][i] == items[i + 1];
    }
  }

  lemma {:induction false} ClauseExact(syntax: Syntax, lib: Library, e: Entry, document: Doc)
    ensures CompileEntry(syntax, e).Ok? <==> ClauseAccepted(syntax, e)
    ensures CompileEntry(syntax, e).Ok? ==> (AllMatch(lib, CompileEntry(syntax, e).value, document) <==> ClauseHolds(syntax, lib, e, document))
    decreases Depth(e.value), 2, 0
  {
    hide Ascii, QueryAccepted, Satisfies, CompileAll, CompileFieldOperators, ConditionAccepted, Meets, EvaluateOperator;
    if e.key == Ascii("$and") || e.key == Ascii("$or") || e.key == Ascii("$nor") {
      if e.value.RawList? {
        AllExact(syntax, lib, e.value.items, document);
      }
    } else {
      ConditionExact(syntax, lib, e.value, Get(document, e.key));
    }
    if CompileEntry(syntax, e).Ok? && e.key != Ascii("$and") {
      assert CompileEntry(syntax, e).value[0] in CompileEntry(syntax, e).value;
    }
  }

  lemma {:induction false} ClausesExact(syntax: Syntax, lib: Library, entries: seq<Entry>, document: Doc)
    ensures CompileEntries(syntax, entries).Ok? <==> forall i :: 0 <= i < |entries| ==> ClauseAccepted(syntax, entries[i])
    ensures CompileEntries(syntax, entries).Ok? ==>
              (AllMatch(lib, CompileEntries(syntax, entries).value, document)
               <==> forall i :: 0 <= i < |entries| ==> ClauseHolds(syntax, lib, entries[i], document))
    decreases DepthOfEntries(entries), 3, |entries|
  {
    hide ClauseAccepted, ClauseHolds, AllMatch, CompileEntry;
    if |entries| == 0 {
      NoneMatch(lib, document);
    } else {
      ClauseExact(syntax, lib, entries[0], document);
      ClausesExact(syntax, lib, entries[1..], document);
      assert forall i :: 0 < i < |entries| ==> entries[i] == entries[1..][i - 1];
      assert forall i :: 0 <= i < |entries[1..]| ==> entries[1..][i] == entries[i + 1];
      if CompileEntries(syntax, entries).Ok? {
        AllMatchAppend(lib, CompileEntry(syntax, entries[0]).value, CompileEntries(syntax, entries[1..]).value, document);
      }
    }
  }

  lemma NoneMatch(lib: Library, document: Doc)
    ensures AllMatch(lib, [], document)
  {
  }

  /**
   A query compiles exactly when every part of it is acceptable, and a document satisfies the
   compiled query exactly when it satisfies the query as written.
   */
  lemma {:induction false} CompileExact(syntax: Syntax, lib: Library, query: Raw, document: Doc)
    ensures CompileQuery(syntax, query).Ok? <==> QueryAccepted(syntax, query)
    ensures CompileQuery(syntax, query).Ok? ==>
              (Evaluate(lib, CompileQuery(syntax, query).value, document) <==> Satisfies(syntax, lib, query, document))
    decreases Depth(query), 4, 0
  {
    hide CompileEntries, ClauseAccepted, ClauseHolds, EntriesOf, Listed;
    EntriesMean(syntax, query);
    if EntriesOf(syntax, query).Ok? {
      ClausesExact(syntax, lib, EntriesOf(syntax, query).value, document);
    }
  }

  // ---------------------------------------------------------------------------
  // The loops that compile
  // ---------------------------------------------------------------------------

  function Onto<T>(done: seq<T>, rest: Result<seq<T>>): Result<seq<T>> {
    if rest.Err? then rest else Ok(done + rest.value)
  }

  lemma OntoMore<T>(done: seq<T>, more: seq<T>, rest: Result<seq<T>>)
    ensures Onto(done, Onto(more, rest)) == Onto(done + more, rest)
    ensures Onto([], rest) == rest
  {
    if rest.Ok? {
      assert done + (more + rest.value) == (done + more) + rest.value;
      assert [] + rest.value == rest.value;
    }
  }

  /** `compileFieldOperators`: operators are pushed entry by entry. */
  method CompileFieldOperatorsLoop(syntax: Syntax, condition: Raw) returns (result: Result<seq<FieldOperator>>)
    ensures result == CompileFieldOperators(syntax, condition)
  {
    hide CompileOperator, BuildRegex, IsOperatorObject;
    if condition.RawPattern? {
      var test := BuildRegex(syntax, condition, Undefined);
      return if test.Ok? then Ok([Regex(test.value)]) else Err(test.error);
    }
    if !IsOperatorObject(condition) {
      return Ok([Eq(Operand(condition))]);
    }
    OperatorObjects(condition);
    var entries := condition.entries;
    var operators: seq<FieldOperator> := [];
    assert entries[0..] == entries;
    OntoMore([], [], CompileOperators(syntax, entries, entries));
    for i := 0 to |entries|
      invariant CompileOperators(syntax, entries, entries) == Onto(operators, CompileOperators(syntax, entries, entries[i..]))
    {
      assert entries[i..][0] == entries[i] && entries[i..][1..] == entries[i + 1..];
      var compiled := CompileOperator(syntax, entries, entries[i]);
      if compiled.Err? {
        return Err(compiled.error);
      }
      OntoMore(operators, compiled.value, CompileOperators(syntax, entries, entries[i + 1..]));
      operators := operators + compiled.value;
    }
    assert operators + [] == operators;
    result := Ok(operators);
  }

  lemma OperatorObjects(condition: Raw)
    ensures IsOperatorObject(condition) ==> condition.RawObject?
  {
  }

  /** `compileQuery`: predicates are pushed clause by clause, those of a conjunction one by one. */
  method CompileQueryLoop(syntax: Syntax, query: Raw) returns (result: Result<CompiledQuery>)
    ensures result == CompileQuery(syntax, query)
  {
    hide CompileLogical, CompileFieldOperators, EntriesOf, Ascii;
    var listed := EntriesOf(syntax, query);
    if listed.Err? {
      return Err(listed.error);
    }
    var entries := listed.value;
    var predicates: seq<CompiledQuery> := [];
    assert entries[0..] == entries;
    OntoMore([], [], CompileEntries(syntax, entries));
    for i := 0 to |entries|
      invariant CompileEntries(syntax, entries) == Onto(predicates, CompileEntries(syntax, entries[i..]))
    {
      assert entries[i..][0] == entries[i] && entries[i..][1..] == entries[i + 1..];
      ghost var before := predicates;
      var field, condition := entries[i].key, entries[i].value;
      if field == Ascii("$and") {
        var ps := CompileLogical(syntax, condition);
        if ps.Err? {
          return Err(ps.error);
        }
        for j := 0 to |ps.value|
          invariant predicates == before + ps.value[..j]
        {
          predicates := predicates + [ps.value[j]];
        }
      } else if field == Ascii("$or") {
        var ps := CompileLogical(syntax, condition);
        if ps.Err? {
          return Err(ps.error);
        }
        predicates := predicates + [Or(ps.value)];
      } else if field == Ascii("$nor") {
        var ps := CompileLogical(syntax, condition);
        if ps.Err? {
          return Err(ps.error);
        }
        predicates := predicates + [Nor(ps.value)];
      } else {
        var operators := CompileFieldOperatorsLoop(syntax, condition);
        if operators.Err? {
          return Err(operators.error);
        }
        predicates := predicates + [FieldPredicate(field, operators.value)];
      }
      assert predicates == before + CompileEntry(syntax, entries[i]).value;
      OntoMore(before, CompileEntry(syntax, entries[i]).value, CompileEntries(syntax, entries[i + 1..]));
    }
    assert predicates + [] == predicates;
    result := Ok(And(predicates));
  }
}
