/**
 The default condition evaluator: dispatch on the condition's kind, then
 compare with one of the eight operators.
 */
module Conditions {
  import opened Optional
  import opened Js
  import opened Types
  import opened FeatureFlags

  /** Operands that relational comparison converts with ToNumber in this model. */
  predicate Numeric(v: Value) {
    v.Undefined? || v.Null? || v.Bool? || v.Num?
  }

  /** ToNumber of a numeric operand: `undefined` is NaN (None), `null` is 0, booleans are 0 and 1. */
  function ToNumber(v: Value): (r: Option<int>)
    requires Numeric(v)
    ensures r.None? <==> v.Undefined?
    ensures v.Num? ==> r == Some(v.n)
    ensures v.Null? ==> r == Some(0)
  {
    match v
    case Undefined => None
    case Null => Some(0)
    case Bool(b) => Some(if b then 1 else 0)
    case Num(n) => Some(n)
  }

  /**
   ECMAScript's IsLessThan: `Some(x < y)`, or None when the answer is
   undefined (a NaN operand). Pairs mixing a string or an array with
   another kind are left outside the model and read as None.
   */
  function LessThan(x: Value, y: Value): Option<bool> {
    if x.Str? && y.Str? then Some(StringLess(x.s, y.s))
    else if Numeric(x) && Numeric(y) then
      var a := ToNumber(x);
      var b := ToNumber(y);
      if a.None? || b.None? then None else Some(a.value < b.value)
    else None
  }

  /** `compare(actual, operator, expected)`. */
  function Compare(actual: Value, op: Operator, expected: Value): (r: bool)
    // strict equality on primitives, never true for arrays
    ensures op == Eq && !actual.List? && !expected.List? ==> (r <==> actual == expected)
    ensures op == Eq && (actual.List? || expected.List?) ==> !r
    // `in`: the expected value is an array holding the actual value
    ensures op == In ==>
      (r <==> (expected.List? && exists i :: 0 <= i < |expected.items| && StrictEquals(expected.items[i], actual)))
    // `contains`: two strings, the expected one a substring of the actual one
    ensures op == Contains ==> (r <==> actual.Str? && expected.Str? && IsSubstring(expected.s, actual.s))
    // numbers compare as numbers
    ensures actual.Num? && expected.Num? ==>
      && (op == Gt ==> (r <==> actual.n > expected.n))
      && (op == Gte ==> (r <==> actual.n >= expected.n))
      && (op == Lt ==> (r <==> actual.n < expected.n))
      && (op == Lte ==> (r <==> actual.n <= expected.n))
    // strings compare lexicographically by code unit
    ensures actual.Str? && expected.Str? ==>
      && (op == Gt ==> (r <==> LexLess(expected.s, actual.s)))
      && (op == Gte ==> (r <==> !LexLess(actual.s, expected.s)))
      && (op == Lt ==> (r <==> LexLess(actual.s, expected.s)))
      && (op == Lte ==> (r <==> !LexLess(expected.s, actual.s)))
    // an undefined operand is NaN: no ordering holds
    ensures (actual.Undefined? || expected.Undefined?) && op in {Gt, Gte, Lt, Lte} ==> !r
  {
    var a := if actual.Str? then actual.s else [];
    var e := if expected.Str? then expected.s else [];
    StringLessIsLexLess(a, e);
    StringLessIsLexLess(e, a);
    match op
    case Eq => StrictEquals(actual, expected)
    case Ne => !StrictEquals(actual, expected)
    case Gt => LessThan(expected, actual) == Some(true)
    case Gte => LessThan(actual, expected) == Some(false)
    case Lt => LessThan(actual, expected) == Some(true)
    case Lte => LessThan(expected, actual) == Some(false)
    case In => expected.List? && ArrayIncludes(expected.items, actual)
    case Contains => actual.Str? && expected.Str? && StringIncludes(actual.s, expected.s)
  }

  /** `ne` is the negation of `eq` for every pair of operands. */
  lemma NeIsNotEq(actual: Value, expected: Value)
    ensures Compare(actual, Ne, expected) == !Compare(actual, Eq, expected)
  {
  }

  /** On two numbers, or two strings, exactly one of `lt`, `eq`, `gt` holds, and `gte`/`lte` negate `lt`/`gt`. */
  lemma {:induction false} OrderingIsTotal(actual: Value, expected: Value)
    requires (actual.Num? && expected.Num?) || (actual.Str? && expected.Str?)
    ensures Compare(actual, Lt, expected) || Compare(actual, Eq, expected) || Compare(actual, Gt, expected)
    ensures !(Compare(actual, Lt, expected) && Compare(actual, Gt, expected))
    ensures Compare(actual, Eq, expected) ==> !Compare(actual, Lt, expected) && !Compare(actual, Gt, expected)
    ensures Compare(actual, Gte, expected) == !Compare(actual, Lt, expected)
    ensures Compare(actual, Lte, expected) == !Compare(actual, Gt, expected)
  {
    if actual.Str? {
      StringLessTrichotomy(actual.s, expected.s);
    }
  }

  /** `condition.operator`, defaulting to `eq`. */
  function OperatorOf(c: Condition): Operator {
    c.operator.GetOr(Eq)
  }

  const Production: JsString := Units("production")

  /** `context.environment || "production"`. */
  function EnvironmentOf(ctx: Context): (r: JsString)
    ensures Truthy(ctx.environment) ==> r == ctx.environment.value
    ensures !Truthy(ctx.environment) ==> r == Production
  {
    if Truthy(ctx.environment) then ctx.environment.value else Production
  }

  /** `context.customAttributes?.[key]`: `undefined` when there are no attributes or no such key. */
  function Attribute(ctx: Context, key: JsString): (r: Value)
    ensures ctx.customAttributes.None? ==> r == Undefined
    ensures ctx.customAttributes.Some? && key !in ctx.customAttributes.value ==> r == Undefined
    ensures ctx.customAttributes.Some? && key in ctx.customAttributes.value ==> r == ctx.customAttributes.value[key]
  {
    match ctx.customAttributes
    case None => Undefined
    case Some(attrs) => if key in attrs then attrs[key] else Undefined
  }

  /**
   `evaluate(condition, context)`. A flag condition asks the flag manager,
   which uses its own context; a permission condition is a placeholder.
   */
  function Evaluate(flags: FlagManager, c: Condition, ctx: Context): (r: bool)
    ensures c.kind == FlagCondition ==> (r <==> IsEnabled(flags, c.key))
    ensures c.kind == PermissionCondition ==> r
    ensures c.kind == EnvironmentCondition ==> r == Compare(Str(EnvironmentOf(ctx)), OperatorOf(c), c.value)
    ensures c.kind == CustomCondition && Truthy(c.evaluator) ==> !r
    ensures c.kind == CustomCondition && !Truthy(c.evaluator) ==> r == Compare(Attribute(ctx, c.key), OperatorOf(c), c.value)
  {
    match c.kind
    case FlagCondition => IsEnabled(flags, c.key)
    case PermissionCondition => true
    case EnvironmentCondition => Compare(Str(EnvironmentOf(ctx)), OperatorOf(c), c.value)
    case CustomCondition =>
      if Truthy(c.evaluator) then false
      else Compare(Attribute(ctx, c.key), OperatorOf(c), c.value)
  }

  /** A condition without an operator behaves exactly as one with `eq`. */
  lemma MissingOperatorIsEq(flags: FlagManager, c: Condition, ctx: Context)
    requires c.operator.None?
    ensures Evaluate(flags, c, ctx) == Evaluate(flags, c.(operator := Some(Eq)), ctx)
  {
  }

  /** A flag condition ignores its operator, value and evaluator, and the context it is given. */
  lemma FlagConditionIgnoresOperands(flags: FlagManager, c: Condition, ctx: Context,
                                     op: Option<Operator>, v: Value, ev: Option<JsString>, ctx': Context)
    requires c.kind == FlagCondition
    ensures Evaluate(flags, c, ctx) == Evaluate(flags, c.(operator := op, value := v, evaluator := ev), ctx')
  {
  }

  /** A missing, an empty and a `"production"` environment are indistinguishable to a condition. */
  lemma EnvironmentDefaultsToProduction(flags: FlagManager, c: Condition, ctx: Context)
    requires !Truthy(ctx.environment)
    ensures Evaluate(flags, c, ctx) == Evaluate(flags, c, ctx.(environment := Some(Production)))
  {
    assert |Production| == 10;
  }
}
