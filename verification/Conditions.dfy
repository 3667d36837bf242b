/** Strict evaluation of pricing and access rule conditions. */
module Conditions {
  import opened Prelude
  import opened JsValues

  datatype Condition = Condition(fieldId: string, operator: string, value: JsValue)

  /** Form data as the evaluator reads it: any lookup, inherited properties included. */
  type FormData = string -> JsValue

  datatype Operator =
    | Equals | NotEquals | In | Contains | NotContains
    | GreaterThan | LessThan | IsEmpty | IsNotEmpty | Unknown

  function OperatorOf(name: string): Operator {
    if name == "equals" then Equals
    else if name == "not_equals" then NotEquals
    else if name == "in" then In
    else if name == "contains" then Contains
    else if name == "not_contains" then NotContains
    else if name == "greater_than" then GreaterThan
    else if name == "less_than" then LessThan
    else if name == "is_empty" then IsEmpty
    else if name == "is_not_empty" then IsNotEmpty
    else Unknown
  }

  predicate IsEmptyValue(v: JsValue) {
    v.Null? || v.Undefined? || v == Str("") || v == Arr([])
  }

  predicate IsEqualValue(h: Host, actual: JsValue, expected: JsValue) {
    if expected.Null? then actual.Null?
    else if expected.Undefined? then actual.Undefined?
    else if IsNullish(actual) then false
    else StringOf(h, actual) == StringOf(h, expected)
  }

  function AsList(v: JsValue): seq<JsValue> {
    if v.Arr? then v.elems else [v]
  }

  predicate IsInValue(h: Host, actual: JsValue, expected: JsValue) {
    !IsNullish(expected) &&
    exists a, c :: a in AsList(actual) && c in AsList(expected) && IsEqualValue(h, a, c)
  }

  /** One condition judged on the value its field holds. */
  predicate HoldsOn(h: Host, c: Condition, v: JsValue) {
    match OperatorOf(c.operator)
    case Equals => IsEqualValue(h, v, c.value)
    case NotEquals => !IsEqualValue(h, v, c.value)
    case In => IsInValue(h, v, c.value)
    case Contains => v.Str? && Includes(v.s, TextOrEmpty(h, c.value))
    case NotContains => !v.Str? || !Includes(v.s, TextOrEmpty(h, c.value))
    case GreaterThan =>
      var actual, expected := ToFiniteNumber(h, v), ToFiniteNumber(h, c.value);
      actual.Some? && expected.Some? && actual.value > expected.value
    case LessThan =>
      var actual, expected := ToFiniteNumber(h, v), ToFiniteNumber(h, c.value);
      actual.Some? && expected.Some? && actual.value < expected.value
    case IsEmpty => IsEmptyValue(v)
    case IsNotEmpty => !IsEmptyValue(v)
    case Unknown => false
  }

  predicate EvaluateRuleCondition(h: Host, c: Condition, form: FormData) {
    HoldsOn(h, c, form(c.fieldId))
  }

  predicate EvaluateRuleConditions(h: Host, conditions: seq<Condition>, logic: string, form: FormData) {
    var normalized := h.upper(logic);
    if normalized == "AND" then
      forall i :: 0 <= i < |conditions| ==> EvaluateRuleCondition(h, conditions[i], form)
    else if normalized == "OR" then
      exists i :: 0 <= i < |conditions| && EvaluateRuleCondition(h, conditions[i], form)
    else false
  }

  predicate IsStringList(v: JsValue) {
    v.Arr? && forall e :: e in v.elems ==> e.Str?
  }

  /** The static type of a condition value: a scalar, null, nothing, or a list of strings. */
  ghost predicate Typed(c: Condition) {
    && !c.value.Obj? && (c.value.Arr? ==> IsStringList(c.value))
    && (c.value.Num? ==> IsNumber(c.value.n))
  }

  /** What the condition schema accepts: `in` takes a non-empty list of strings, every other
      operator a scalar, and the two comparisons a numeric one. */
  ghost predicate SchemaShaped(h: Host, c: Condition) {
    var op := OperatorOf(c.operator);
    && c.fieldId != ""
    && op != Unknown
    && Typed(c)
    && (op == In <==> c.value.Arr?)
    && (op == In ==> c.value.elems != [])
    && (op in {GreaterThan, LessThan} ==> ToFiniteNumber(h, c.value).Some?)
  }
}
