/**
 Which indexed values a field predicate can match: the values an equality names, or a range of
 numbers. An index answers with the documents filed under them.
 */
module Scanning {
  import opened Bytes
  import opened Documents
  import opened Payloads
  import opened DatabaseState
  import opened Queries

  // ---------------------------------------------------------------------------
  // Strings: $eq and $in
  // ---------------------------------------------------------------------------

  function Texts(values: seq<QueryValue>): (ts: seq<Str>)
    ensures forall s :: s in ts <==> Some(Text(s)) in values
  {
    if |values| == 0 then []
    else (if values[0].Some? && values[0].value.Text? then [values[0].value.s] else []) + Texts(values[1..])
  }

  function EqualityValuesFrom(operators: seq<FieldOperator>, values: seq<Str>): Option<seq<Str>> {
    if |operators| == 0 then Some(values)
    else match operators[0]
      case Eq(v) => if v.Some? && v.value.Text? then EqualityValuesFrom(operators[1..], values + [v.value.s]) else Some([])
      case In(vs) => EqualityValuesFrom(operators[1..], values + Texts(vs))
      case _ => None
  }

  /** The strings to look up, or nothing when the operators are not all equalities. */
  function EqualityValues(operators: seq<FieldOperator>): Option<seq<Str>> {
    if |operators| == 0 then None else EqualityValuesFrom(operators, [])
  }

  method CollectStringEqualityValues(operators: seq<FieldOperator>) returns (result: Option<seq<Str>>)
    ensures result == EqualityValues(operators)
  {
    if |operators| == 0 {
      return None;
    }
    var values: seq<Str> := [];
    for i := 0 to |operators|
      invariant EqualityValuesFrom(operators, []) == EqualityValuesFrom(operators[i..], values)
    {
      assert operators[i..][0] == operators[i] && operators[i..][1..] == operators[i + 1..];
      match operators[i]
      case Eq(v) =>
        if !(v.Some? && v.value.Text?) {
          return Some([]);
        }
        values := values + [v.value.s];
      case In(vs) =>
        values := values + Texts(vs);
      case _ =>
        return None;
    }
    return Some(values);
  }

  lemma {:induction false} EqualitySound(lib: Library, operators: seq<FieldOperator>, values: seq<Str>, s: Str)
    requires EqualityValuesFrom(operators, values).Some? && (|operators| > 0 || s in values)
    requires forall i :: 0 <= i < |operators| ==> EvaluateOperator(lib, operators[i], Some(Text(s)))
    ensures s in EqualityValuesFrom(operators, values).value
    decreases |operators|
  {
    if |operators| > 0 {
      assert EvaluateOperator(lib, operators[0], Some(Text(s)));
      match operators[0]
      case Eq(v) => EqualitySound(lib, operators[1..], values + [s], s);
      case In(vs) =>
        var i :| 0 <= i < |vs| && ValuesEqual(lib, Some(Text(s)), vs[i]);
        assert vs[i] == Some(Text(s)) && s in Texts(vs);
        EqualitySound(lib, operators[1..], values + Texts(vs), s);
      case _ =>
    }
  }

  // ---------------------------------------------------------------------------
  // Numbers: $eq, $in and ranges
  // ---------------------------------------------------------------------------

  /** A finite number, by its key in the order of doubles. */
  type Finite = int

  datatype NumberRange = NumberRange(
    minExclusive: Option<Finite>, minInclusive: Option<Finite>,
    maxExclusive: Option<Finite>, maxInclusive: Option<Finite>, values: Option<seq<Finite>>)

  const UNBOUNDED: NumberRange := NumberRange(None, None, None, None, None)

  function Numbers(values: seq<QueryValue>): (ns: seq<Finite>)
    ensures forall n :: n in ns <==> Num(n).Finite() && Some(Numeric(Num(n))) in values
  {
    if |values| == 0 then []
    else
      (if values[0].Some? && values[0].value.Numeric? && values[0].value.n.Finite() then [values[0].value.n.key] else [])
      + Numbers(values[1..])
  }

  function Larger(bound: Option<Finite>, n: Finite): Finite {
    if bound.Some? && bound.value > n then bound.value else n
  }

  function Smaller(bound: Option<Finite>, n: Finite): Finite {
    if bound.Some? && bound.value < n then bound.value else n
  }

  predicate InBounds(r: NumberRange, n: Finite) {
    && (r.minExclusive.None? || n > r.minExclusive.value)
    && (r.minInclusive.None? || n >= r.minInclusive.value)
    && (r.maxExclusive.None? || n < r.maxExclusive.value)
    && (r.maxInclusive.None? || n <= r.maxInclusive.value)
  }

  function Filter(r: NumberRange, ns: seq<Finite>): (kept: seq<Finite>)
    ensures forall n :: n in kept <==> n in ns && InBounds(r, n)
  {
    if |ns| == 0 then [] else (if InBounds(r, ns[0]) then [ns[0]] else []) + Filter(r, ns[1..])
  }

  /** The range after one more operator, no values at all, or no answer. */
  datatype Narrowed = Going(range: NumberRange) | Nothing(range: NumberRange) | NoAnswer

  function FiniteOperand(v: QueryValue): Option<Finite> {
    if v.Some? && v.value.Numeric? && v.value.n.Finite() then Some(v.value.n.key) else None
  }

  function Narrow(r: NumberRange, operator: FieldOperator): Narrowed {
    match operator
    case In(vs) => Going(r.(values := Some(Numbers(vs))))
    case Eq(v) => if FiniteOperand(v).None? then Nothing(r.(values := Some([]))) else Going(r.(values := Some([FiniteOperand(v).value])))
    case Gt(v) =>
      if FiniteOperand(v).None? then Nothing(r.(values := Some([])))
      else Going(r.(minExclusive := Some(Larger(r.minExclusive, FiniteOperand(v).value))))
    case Gte(v) =>
      if FiniteOperand(v).None? then Nothing(r.(values := Some([])))
      else Going(r.(minInclusive := Some(Larger(r.minInclusive, FiniteOperand(v).value))))
    case Lt(v) =>
      if FiniteOperand(v).None? then Nothing(r.(values := Some([])))
      else Going(r.(maxExclusive := Some(Smaller(r.maxExclusive, FiniteOperand(v).value))))
    case Lte(v) =>
      if FiniteOperand(v).None? then Nothing(r.(values := Some([])))
      else Going(r.(maxInclusive := Some(Smaller(r.maxInclusive, FiniteOperand(v).value))))
    case _ => NoAnswer
  }

  function Finish(r: NumberRange): NumberRange {
    if r.values.Some? then r.(values := Some(Filter(r, r.values.value))) else r
  }

  function RangeFrom(operators: seq<FieldOperator>, r: NumberRange): Option<NumberRange> {
    if |operators| == 0 then Some(Finish(r))
    else match Narrow(r, operators[0])
      case Going(next) => RangeFrom(operators[1..], next)
      case Nothing(next) => Some(next)
      case NoAnswer => None
  }

  function RangeOf(operators: seq<FieldOperator>): Option<NumberRange> {
    if |operators| == 0 then None else RangeFrom(operators, UNBOUNDED)
  }

  /** `numberPredicateRange`: the bounds are narrowed in place, operator by operator. */
  method NumberPredicateRange(operators: seq<FieldOperator>) returns (result: Option<NumberRange>)
    ensures result == RangeOf(operators)
  {
    if |operators| == 0 {
      return None;
    }
    var range := UNBOUNDED;
    for i := 0 to |operators|
      invariant RangeFrom(operators, UNBOUNDED) == RangeFrom(operators[i..], range)
    {
      assert operators[i..][0] == operators[i] && operators[i..][1..] == operators[i + 1..];
      match Narrow(range, operators[i])
      case Going(next) =>
        range := next;
      case Nothing(next) =>
        return Some(next);
      case NoAnswer =>
        return None;
    }
    return Some(Finish(range));
  }

  /** The values of an index that the range stands for. */
  predicate Admits(r: NumberRange, n: Finite) {
    if r.values.Some? then n in r.values.value else InBounds(r, n)
  }

  predicate Admissible(r: NumberRange, n: Finite) {
    InBounds(r, n) && (r.values.Some? ==> n in r.values.value)
  }

  predicate IsInfinite(value: QueryValue) {
    value.Some? && value.value.Numeric? && value.value.n.Num? && !value.value.n.Finite()
  }

  /** A comparison with plus or minus infinity, which a number index answers with nothing at all. */
  predicate ComparesWithInfinity(operator: FieldOperator) {
    (operator.Gt? || operator.Gte? || operator.Lt? || operator.Lte?) && IsInfinite(operator.value)
  }

  /** An operator that holds of a number keeps the number in the range. */
  lemma NarrowSound(lib: Library, r: NumberRange, operator: FieldOperator, n: Finite)
    requires Num(n).Finite()
    requires Admissible(r, n) && EvaluateOperator(lib, operator, Some(Numeric(Num(n)))) && !ComparesWithInfinity(operator)
    ensures Narrow(r, operator).NoAnswer? || (Narrow(r, operator).Going? && Admissible(Narrow(r, operator).range, n))
  {
    match operator
    case In(vs) =>
      var i :| 0 <= i < |vs| && ValuesEqual(lib, Some(Numeric(Num(n))), vs[i]);
      assert vs[i] == Some(Numeric(Num(n)));
    case Eq(v) =>
      assert FiniteOperand(v) == Some(n) && [n][0] == n;
    case _ =>
  }

  lemma {:induction false} RangeSound(lib: Library, operators: seq<FieldOperator>, r: NumberRange, n: Finite)
    requires Num(n).Finite()
    requires RangeFrom(operators, r).Some? && Admissible(r, n)
    requires forall i :: 0 <= i < |operators| ==> EvaluateOperator(lib, operators[i], Some(Numeric(Num(n))))
    requires forall i :: 0 <= i < |operators| ==> !ComparesWithInfinity(operators[i])
    ensures Admits(RangeFrom(operators, r).value, n)
    decreases |operators|
  {
    hide EvaluateOperator, Narrow, ComparesWithInfinity;
    if |operators| > 0 {
      NarrowSound(lib, r, operators[0], n);
      RangeSound(lib, operators[1..], Narrow(r, operators[0]).range, n);
    }
  }

  /** Of several equality operators only the last one counts. */
  predicate IsEquality(operator: FieldOperator) {
    operator.Eq? || operator.In?
  }

  lemma NarrowExact(lib: Library, r: NumberRange, operator: FieldOperator, n: Finite)
    requires Num(n).Finite()
    requires Narrow(r, operator).Going? && (IsEquality(operator) ==> r.values.None?)
    requires Admissible(Narrow(r, operator).range, n)
    ensures Admissible(r, n) && EvaluateOperator(lib, operator, Some(Numeric(Num(n))))
  {
    match operator
    case In(vs) =>
      assert Some(Numeric(Num(n))) in vs;
      var i :| 0 <= i < |vs| && vs[i] == Some(Numeric(Num(n)));
      assert ValuesEqual(lib, Some(Numeric(Num(n))), vs[i]);
    case _ =>
  }

  lemma {:induction false} RangeExactFrom(lib: Library, operators: seq<FieldOperator>, r: NumberRange, n: Finite)
    requires Num(n).Finite()
    requires RangeFrom(operators, r).Some? && Admits(RangeFrom(operators, r).value, n)
    requires forall i, j :: 0 <= i < j < |operators| && IsEquality(operators[i]) ==> !IsEquality(operators[j])
    requires r.values.Some? ==> forall i :: 0 <= i < |operators| ==> !IsEquality(operators[i])
    ensures Admissible(r, n) && forall i :: 0 <= i < |operators| ==> EvaluateOperator(lib, operators[i], Some(Numeric(Num(n))))
    decreases |operators|
  {
    hide EvaluateOperator;
    if |operators| > 0 {
      var step := Narrow(r, operators[0]);
      if step.Going? {
        RangeExactFrom(lib, operators[1..], step.range, n);
        NarrowExact(lib, r, operators[0], n);
        forall i | 0 <= i < |operators|
          ensures EvaluateOperator(lib, operators[i], Some(Numeric(Num(n))))
        {
          assert i > 0 ==> operators[i] == operators[1..][i - 1];
        }
      }
    }
  }

  /** An operand the index cannot use leaves no value at all. */
  lemma {:induction false} InfinityAdmitsNothing(operators: seq<FieldOperator>, r: NumberRange, k: nat, n: Finite)
    requires k < |operators| && ComparesWithInfinity(operators[k]) && RangeFrom(operators, r).Some?
    ensures !Admits(RangeFrom(operators, r).value, n)
    decreases |operators|
  {
    if k > 0 && Narrow(r, operators[0]).Going? {
      InfinityAdmitsNothing(operators[1..], Narrow(r, operators[0]).range, k - 1, n);
    }
  }

  /** With at most one equality, the range holds exactly the numbers the operators accept. */
  lemma RangeExact(lib: Library, operators: seq<FieldOperator>, n: Finite)
    requires Num(n).Finite()
    requires RangeOf(operators).Some? && forall i :: 0 <= i < |operators| ==> !ComparesWithInfinity(operators[i])
    requires forall i, j :: 0 <= i < j < |operators| && IsEquality(operators[i]) ==> !IsEquality(operators[j])
    ensures Admits(RangeOf(operators).value, n) <==> forall i :: 0 <= i < |operators| ==> EvaluateOperator(lib, operators[i], Some(Numeric(Num(n))))
  {
    hide EvaluateOperator, RangeFrom, ComparesWithInfinity;
    if Admits(RangeOf(operators).value, n) {
      RangeExactFrom(lib, operators, UNBOUNDED, n);
    } else if forall i :: 0 <= i < |operators| ==> EvaluateOperator(lib, operators[i], Some(Numeric(Num(n)))) {
      RangeSound(lib, operators, UNBOUNDED, n);
    }
  }

  // ---------------------------------------------------------------------------
  // Either kind of index
  // ---------------------------------------------------------------------------

  datatype Selection = OfStrings(values: seq<Str>) | OfNumbers(range: NumberRange)

  function SelectionOf(kind: IndexKind, operators: seq<FieldOperator>): Option<Selection> {
    match kind
    case Strings =>
      var values := EqualityValues(operators);
      if values.None? then None else Some(OfStrings(values.value))
    case Numbers =>
      var range := RangeOf(operators);
      if range.None? then None else Some(OfNumbers(range.value))
  }

  /** An index of this kind can use the operator. */
  predicate Usable(kind: IndexKind, operator: FieldOperator) {
    operator.Eq? || operator.In? || (kind.Numbers? && (operator.Gt? || operator.Gte? || operator.Lt? || operator.Lte?))
  }

  /** The operator compares with a value that no document in such an index has; what comes after it is not looked at. */
  predicate Ends(kind: IndexKind, operator: FieldOperator) {
    Usable(kind, operator) && !operator.In? &&
    match kind
    case Strings => operator.value.None? || !operator.value.value.Text?
    case Numbers => operator.value.None? || !operator.value.value.Numeric? || !operator.value.value.n.Finite()
  }

  predicate EndsNowhere(kind: IndexKind, operators: seq<FieldOperator>) {
    forall i :: 0 <= i < |operators| ==> !Ends(kind, operators[i])
  }

  /** Every operator that is looked at can be used. */
  predicate UsableThroughout(kind: IndexKind, operators: seq<FieldOperator>) {
    forall i :: 0 <= i < |operators| && EndsNowhere(kind, operators[..i]) ==> Usable(kind, operators[i])
  }

  lemma EndsNowhereFirst(kind: IndexKind, operators: seq<FieldOperator>, n: nat)
    requires 0 < n <= |operators|
    ensures EndsNowhere(kind, operators[..n]) <==> !Ends(kind, operators[0]) && EndsNowhere(kind, operators[1..][..n - 1])
  {
    hide Ends;
    var rest := operators[1..][..n - 1];
    assert operators[..n] == [operators[0]] + rest;
    assert forall i :: 0 <= i < |rest| ==> operators[..n][i + 1] == rest[i];
  }

  lemma UsableRest(kind: IndexKind, operators: seq<FieldOperator>)
    requires |operators| > 0
    ensures UsableThroughout(kind, operators) <==>
              Usable(kind, operators[0]) && (Ends(kind, operators[0]) || UsableThroughout(kind, operators[1..]))
  {
    hide Usable, Ends;
    var rest := operators[1..];
    assert EndsNowhere(kind, operators[..0]);
    hide EndsNowhere;
    if UsableThroughout(kind, operators) && !Ends(kind, operators[0]) {
      forall i | 0 <= i < |rest| && EndsNowhere(kind, rest[..i])
        ensures Usable(kind, rest[i])
      {
        EndsNowhereFirst(kind, operators, i + 1);
        assert operators[i + 1] == rest[i];
      }
    }
    if Usable(kind, operators[0]) && (Ends(kind, operators[0]) || UsableThroughout(kind, rest)) {
      forall i | 0 < i < |operators| && EndsNowhere(kind, operators[..i])
        ensures Usable(kind, operators[i])
      {
        EndsNowhereFirst(kind, operators, i);
        assert operators[i] == rest[i - 1];
      }
    }
  }

  lemma {:induction false} StringsAnswer(operators: seq<FieldOperator>, values: seq<Str>)
    ensures EqualityValuesFrom(operators, values).Some? <==> UsableThroughout(IndexKind.Strings, operators)
    decreases |operators|
  {
    hide UsableThroughout;
    if |operators| > 0 {
      UsableRest(IndexKind.Strings, operators);
      if operators[0].Eq? && !Ends(IndexKind.Strings, operators[0]) {
        StringsAnswer(operators[1..], values + [operators[0].value.value.s]);
      } else if operators[0].In? {
        StringsAnswer(operators[1..], values + Texts(operators[0].values));
      }
    } else {
      assert UsableThroughout(IndexKind.Strings, operators) by {
        NoOperators(IndexKind.Strings, operators);
      }
    }
  }

  lemma NoOperators(kind: IndexKind, operators: seq<FieldOperator>)
    requires |operators| == 0
    ensures UsableThroughout(kind, operators)
  {
  }

  lemma NarrowAnswers(r: NumberRange, operator: FieldOperator)
    ensures Narrow(r, operator).NoAnswer? <==> !Usable(IndexKind.Numbers, operator)
    ensures Narrow(r, operator).Nothing? <==> Ends(IndexKind.Numbers, operator)
  {
  }

  lemma {:induction false} NumbersAnswer(operators: seq<FieldOperator>, r: NumberRange)
    ensures RangeFrom(operators, r).Some? <==> UsableThroughout(IndexKind.Numbers, operators)
    decreases |operators|
  {
    hide UsableThroughout, Narrow, Finish;
    if |operators| > 0 {
      UsableRest(IndexKind.Numbers, operators);
      NarrowAnswers(r, operators[0]);
      if Narrow(r, operators[0]).Going? {
        NumbersAnswer(operators[1..], Narrow(r, operators[0]).range);
      }
    } else {
      NoOperators(IndexKind.Numbers, operators);
    }
  }

  /** Which predicates an index answers: those with operators, all of which it can use, up to one that ends the answer. */
  lemma AnsweredExactly(kind: IndexKind, operators: seq<FieldOperator>)
    ensures SelectionOf(kind, operators).Some? <==> |operators| > 0 && UsableThroughout(kind, operators)
  {
    hide UsableThroughout, EqualityValuesFrom, RangeFrom;
    match kind
    case Strings => StringsAnswer(operators, []);
    case Numbers => NumbersAnswer(operators, UNBOUNDED);
  }

  /** One of the operators names the string. */
  predicate NamedBy(operator: FieldOperator, s: Str) {
    (operator.Eq? && operator.value == Some(Text(s))) || (operator.In? && Some(Text(s)) in operator.values)
  }

  lemma {:induction false} StringsFrom(operators: seq<FieldOperator>, values: seq<Str>, s: Str)
    requires EqualityValuesFrom(operators, values).Some?
    ensures s in EqualityValuesFrom(operators, values).value <==>
              EndsNowhere(IndexKind.Strings, operators) && (s in values || exists i :: 0 <= i < |operators| && NamedBy(operators[i], s))
    decreases |operators|
  {
    if |operators| > 0 {
      var rest := operators[1..];
      assert forall i :: 0 < i < |operators| ==> operators[i] == rest[i - 1];
      assert forall i :: 0 <= i < |rest| ==> rest[i] == operators[i + 1];
      if !Ends(IndexKind.Strings, operators[0]) {
        var more := if operators[0].Eq? then [operators[0].value.value.s] else Texts(operators[0].values);
        StringsFrom(rest, values + more, s);
        NamedFirst(operators, s);
        assert EndsNowhere(IndexKind.Strings, operators) <==> EndsNowhere(Strings, rest);
        assert s in more <==> NamedBy(operators[0], s);
      }
    }
  }

  lemma NamedFirst(operators: seq<FieldOperator>, s: Str)
    requires |operators| > 0
    ensures (exists i :: 0 <= i < |operators| && NamedBy(operators[i], s)) <==>
              NamedBy(operators[0], s) || exists i :: 0 <= i < |operators| - 1 && NamedBy(operators[1..][i], s)
  {
    hide NamedBy;
    if i :| 0 <= i < |operators| && NamedBy(operators[i], s) {
      assert i > 0 ==> NamedBy(operators[1..][i - 1], s);
    }
    if i :| 0 <= i < |operators| - 1 && NamedBy(operators[1..][i], s) {
      assert NamedBy(operators[i + 1], s);
    }
  }

  /** A string is looked up exactly when some operator names it and none asks for anything but a string. */
  lemma StringsExact(operators: seq<FieldOperator>, s: Str)
    requires EqualityValues(operators).Some?
    ensures s in EqualityValues(operators).value <==>
              EndsNowhere(IndexKind.Strings, operators) && exists i :: 0 <= i < |operators| && NamedBy(operators[i], s)
  {
    hide EqualityValuesFrom, NamedBy, EndsNowhere;
    StringsFrom(operators, [], s);
  }

  /** The operator counts: it is a comparison, or the last of the equalities. */
  predicate Counts(operators: seq<FieldOperator>, i: nat)
    requires i < |operators|
  {
    IsEquality(operators[i]) ==> forall j :: i < j < |operators| ==> !IsEquality(operators[j])
  }

  predicate Accepts(lib: Library, operators: seq<FieldOperator>, n: Finite)
    requires Num(n).Finite()
  {
    forall i :: 0 <= i < |operators| && Counts(operators, i) ==> EvaluateOperator(lib, operators[i], Some(Numeric(Num(n))))
  }

  predicate NoEquality(operators: seq<FieldOperator>) {
    forall i :: 0 <= i < |operators| ==> !IsEquality(operators[i])
  }

  lemma AcceptsFirst(lib: Library, operators: seq<FieldOperator>, n: Finite)
    requires Num(n).Finite() && |operators| > 0
    ensures Accepts(lib, operators, n) <==>
              && Accepts(lib, operators[1..], n)
              && ((IsEquality(operators[0]) ==> NoEquality(operators[1..])) ==> EvaluateOperator(lib, operators[0], Some(Numeric(Num(n)))))
  {
    hide EvaluateOperator, IsEquality;
    var rest := operators[1..];
    assert forall i :: 0 < i < |operators| ==> operators[i] == rest[i - 1];
    assert Counts(operators, 0) <==> (IsEquality(operators[0]) ==> NoEquality(rest)) by {
      assert forall j :: 0 <= j < |rest| ==> rest[j] == operators[j + 1];
    }
    forall i: nat | i < |rest|
      ensures Counts(operators, i + 1) <==> Counts(rest, i)
    {
      assert forall j :: 0 <= j < |rest| ==> rest[j] == operators[j + 1];
    }
    if Accepts(lib, operators, n) {
      forall i | 0 <= i < |rest| && Counts(rest, i)
        ensures EvaluateOperator(lib, rest[i], Some(Numeric(Num(n))))
      {
        assert Counts(operators, i + 1);
      }
    }
    if Accepts(lib, rest, n) {
      forall i | 0 < i < |operators| && Counts(operators, i)
        ensures EvaluateOperator(lib, operators[i], Some(Numeric(Num(n))))
      {
        assert Counts(rest, i - 1);
      }
    }
  }

  /** What one operator does to a range: a comparison narrows the bounds, an equality replaces the values. */
  lemma NarrowMeans(lib: Library, r: NumberRange, operator: FieldOperator, n: Finite)
    requires Num(n).Finite() && Narrow(r, operator).Going?
    ensures var next := Narrow(r, operator).range;
            var accepted := EvaluateOperator(lib, operator, Some(Numeric(Num(n))));
            if IsEquality(operator) then (InBounds(next, n) <==> InBounds(r, n)) && next.values.Some? && (n in next.values.value <==> accepted)
            else (InBounds(next, n) <==> InBounds(r, n) && accepted) && next.values == r.values
  {
    match operator
    case In(vs) => MembershipMeans(lib, vs, n);
    case _ =>
  }

  lemma MembershipMeans(lib: Library, vs: seq<QueryValue>, n: Finite)
    requires Num(n).Finite()
    ensures n in Numbers(vs) <==> exists i :: 0 <= i < |vs| && ValuesEqual(lib, Some(Numeric(Num(n))), vs[i])
  {
    if Some(Numeric(Num(n))) in vs {
      var i :| 0 <= i < |vs| && vs[i] == Some(Numeric(Num(n)));
      assert ValuesEqual(lib, Some(Numeric(Num(n))), vs[i]);
    }
    if i :| 0 <= i < |vs| && ValuesEqual(lib, Some(Numeric(Num(n))), vs[i]) {
      assert vs[i] == Some(Numeric(Num(n)));
    }
  }

  lemma {:induction false} RangeHolds(lib: Library, operators: seq<FieldOperator>, r: NumberRange, n: Finite)
    requires Num(n).Finite() && RangeFrom(operators, r).Some? && EndsNowhere(IndexKind.Numbers, operators)
    ensures Admits(RangeFrom(operators, r).value, n) <==>
              InBounds(r, n) && (r.values.Some? && NoEquality(operators) ==> n in r.values.value) && Accepts(lib, operators, n)
    decreases |operators|
  {
    hide EvaluateOperator, Narrow, Accepts, InBounds, Ends, NoEquality;
    if |operators| == 0 {
      assert Accepts(lib, operators, n) && NoEquality(operators) by {
        NothingAsked(lib, operators, n);
      }
    } else {
      NarrowAnswers(r, operators[0]);
      var next := Narrow(r, operators[0]).range;
      assert forall i :: 0 <= i < |operators| - 1 ==> operators[1..][i] == operators[i + 1];
      RangeHolds(lib, operators[1..], next, n);
      NarrowMeans(lib, r, operators[0], n);
      AcceptsFirst(lib, operators, n);
      NoEqualityFirst(operators);
    }
  }

  lemma NothingAsked(lib: Library, operators: seq<FieldOperator>, n: Finite)
    requires Num(n).Finite() && |operators| == 0
    ensures Accepts(lib, operators, n) && NoEquality(operators)
  {
  }

  lemma NoEqualityFirst(operators: seq<FieldOperator>)
    requires |operators| > 0
    ensures NoEquality(operators) <==> !IsEquality(operators[0]) && NoEquality(operators[1..])
  {
    hide IsEquality;
    assert forall i :: 0 < i < |operators| ==> operators[i] == operators[1..][i - 1];
    assert forall i :: 0 <= i < |operators| - 1 ==> operators[1..][i] == operators[i + 1];
  }

  /** Which numbers a range holds: none if an operator ends the answer, and otherwise those that every comparison and the last equality accept. */
  lemma NumbersExact(lib: Library, operators: seq<FieldOperator>, n: Finite)
    requires Num(n).Finite() && RangeOf(operators).Some? && EndsNowhere(IndexKind.Numbers, operators)
    ensures Admits(RangeOf(operators).value, n) <==> Accepts(lib, operators, n)
  {
    hide RangeFrom, Accepts;
    RangeHolds(lib, operators, UNBOUNDED, n);
  }

  predicate Selects(selection: Selection, key: Key) {
    match (selection, key)
    case (OfStrings(values), StringKey(s)) => s in values
    case (OfNumbers(range), NumberKey(n)) => Admits(range, n)
    case _ => false
  }

  /** What an index answers to a predicate on its field: documents and their offsets. */
  function Scanned(index: Index, operators: seq<FieldOperator>): Option<map<Str, nat>> {
    var selection := SelectionOf(index.kind, operators);
    if selection.None? then None
    else Some(map id | id in index.postings && Selects(selection.value, index.postings[id].key) :: index.postings[id].offset)
  }

  /** A number index asked to compare with infinity. */
  predicate Unanswerable(kind: IndexKind, operators: seq<FieldOperator>) {
    kind.Numbers? && exists i :: 0 <= i < |operators| && ComparesWithInfinity(operators[i])
  }

  /** An indexed document that satisfies the predicate is selected, unless infinity is compared with; then nothing is. */
  lemma SelectionSound(lib: Library, kind: IndexKind, operators: seq<FieldOperator>, value: QueryValue)
    requires SelectionOf(kind, operators).Some? && AllHold(lib, operators, value) && IndexKey(kind, value).Some?
    ensures Selects(SelectionOf(kind, operators).value, IndexKey(kind, value).value) <==> !Unanswerable(kind, operators)
  {
    hide EvaluateOperator, RangeFrom, EqualityValuesFrom, ComparesWithInfinity;
    match kind
    case Strings => EqualitySound(lib, operators, [], value.value.s);
    case Numbers =>
      if Unanswerable(kind, operators) {
        var k :| 0 <= k < |operators| && ComparesWithInfinity(operators[k]);
        InfinityAdmitsNothing(operators, UNBOUNDED, k, value.value.n.key);
      } else {
        RangeSound(lib, operators, UNBOUNDED, value.value.n.key);
      }
  }

  /** Operands of the type the index holds. */
  predicate TypedOperator(kind: IndexKind, operator: FieldOperator) {
    match operator
    case Eq(v) => IndexKey(kind, v).Some?
    case In(vs) => forall i :: 0 <= i < |vs| ==> IndexKey(kind, vs[i]).Some?
    case Gt(v) => IndexKey(kind, v).Some?
    case Gte(v) => IndexKey(kind, v).Some?
    case Lt(v) => IndexKey(kind, v).Some?
    case Lte(v) => IndexKey(kind, v).Some?
    case _ => true
  }

  /** With operands of the index's type, only values of that type satisfy a predicate the index can answer. */
  lemma TypedSelection(lib: Library, kind: IndexKind, operators: seq<FieldOperator>, value: QueryValue)
    requires SelectionOf(kind, operators).Some? && AllHold(lib, operators, value)
    requires TypedOperator(kind, operators[0]) && !IsInfinite(value)
    ensures IndexKey(kind, value).Some?
  {
    hide RangeFrom, EqualityValuesFrom;
    assert EvaluateOperator(lib, operators[0], value);
    assert !operators[0].Not? && !operators[0].Ne? && !operators[0].Nin? && !operators[0].Exists? && !operators[0].Regex? && !operators[0].OfType? by {
      FirstOperator(kind, operators);
    }
    match operators[0]
    case In(vs) =>
      var i :| 0 <= i < |vs| && ValuesEqual(lib, value, vs[i]);
    case _ =>
  }

  lemma FirstOperator(kind: IndexKind, operators: seq<FieldOperator>)
    requires SelectionOf(kind, operators).Some?
    ensures |operators| > 0
    ensures match operators[0]
            case Eq(_) => true
            case In(_) => true
            case Gt(_) => kind.Numbers?
            case Gte(_) => kind.Numbers?
            case Lt(_) => kind.Numbers?
            case Lte(_) => kind.Numbers?
            case _ => false
  {
  }
}
