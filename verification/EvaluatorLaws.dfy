/** What the rule evaluator says about plain answers, operator by operator under its stored name. */
module EvaluatorLaws {
  import opened Conditions
  import opened JsValues
  import opened Prelude

  /** AND asks for every condition, and nothing at all of an empty list. */
  lemma AndExactly(h: Host, conditions: seq<Condition>, last: Condition, logic: string, form: FormData)
    requires h.upper(logic) == "AND"
    ensures EvaluateRuleConditions(h, [], logic, form)
    ensures EvaluateRuleConditions(h, conditions + [last], logic, form) <==>
            EvaluateRuleConditions(h, conditions, logic, form) && HoldsOn(h, last, form(last.fieldId))
  {
    var more := conditions + [last];
    assert more[|conditions|] == last && forall i :: 0 <= i < |conditions| ==> more[i] == conditions[i];
  }

  /** OR asks for one condition, so an empty list fails. */
  lemma OrExactly(h: Host, conditions: seq<Condition>, last: Condition, logic: string, form: FormData)
    requires h.upper(logic) == "OR"
    ensures !EvaluateRuleConditions(h, [], logic, form)
    ensures EvaluateRuleConditions(h, conditions + [last], logic, form) <==>
            EvaluateRuleConditions(h, conditions, logic, form) || HoldsOn(h, last, form(last.fieldId))
  {
    var more := conditions + [last];
    assert more[|conditions|] == last && forall i :: 0 <= i < |conditions| ==> more[i] == conditions[i];
  }

  /** Any other logic fails. */
  lemma OtherLogicFails(h: Host, conditions: seq<Condition>, logic: string, form: FormData)
    requires h.upper(logic) !in {"AND", "OR"}
    ensures !EvaluateRuleConditions(h, conditions, logic, form)
  {}

  /** The text a value is compared by: the names of the constants, and for a list the texts of its elements
      joined by commas, with nothing for null and undefined. */
  lemma TextsOfValues(h: Host, x: JsValue, rest: seq<JsValue>)
    ensures StringOf(h, Null) == "null" && StringOf(h, Undefined) == "undefined"
    ensures StringOf(h, Bool(true)) == "true" && StringOf(h, Bool(false)) == "false"
    ensures StringOf(h, Arr([])) == ""
    ensures var text := if x == Null || x == Undefined then "" else StringOf(h, x);
            && StringOf(h, Arr([x])) == text
            && (rest != [] ==> StringOf(h, Arr([x] + rest)) == text + "," + StringOf(h, Arr(rest)))
  {
    assert ([x] + rest)[1..] == rest;
    assert JoinText(h, [x]) == ElemText(h, x);
  }

  /** A condition without a value to contain is one every text satisfies. */
  lemma NothingToContain(h: Host, answer: string, missing: JsValue)
    requires missing == Null || missing == Undefined
    ensures Holds(h, "contains", missing, Str(answer)) && !Holds(h, "not_contains", missing, Str(answer))
  {
    assert OccursAt(answer, "", 0);
  }

  /** One stored operator on one answer. */
  predicate Holds(h: Host, operator: string, expected: JsValue, answer: JsValue) {
    HoldsOn(h, Condition("f", operator, expected), answer)
  }

  /** The text stands somewhere in the answer. */
  ghost predicate StandsIn(text: string, answer: string) {
    exists before: string, after: string :: answer == before + text + after
  }

  lemma IncludesExactly(answer: string, text: string)
    ensures Includes(answer, text) <==> StandsIn(text, answer)
  {
    if Includes(answer, text) {
      var i :| 0 <= i <= |answer| && OccursAt(answer, text, i);
      assert answer == answer[..i] + text + answer[i + |text|..];
    }
    if before: string, after: string :| answer == before + text + after {
      assert answer[|before|..|before| + |text|] == text;
      assert OccursAt(answer, text, |before|);
    }
  }

  /** A text answer against a text. */
  lemma TextAnswers(h: Host, answer: string, text: string)
    ensures Holds(h, "equals", Str(text), Str(answer)) <==> answer == text
    ensures Holds(h, "not_equals", Str(text), Str(answer)) <==> answer != text
    ensures Holds(h, "contains", Str(text), Str(answer)) <==> StandsIn(text, answer)
    ensures Holds(h, "not_contains", Str(text), Str(answer)) <==> !StandsIn(text, answer)
    ensures Holds(h, "is_empty", Undefined, Str(answer)) <==> answer == ""
    ensures Holds(h, "is_not_empty", Undefined, Str(answer)) <==> answer != ""
  {
    IncludesExactly(answer, text);
  }

  /** Answers to a choice among texts: one, or several ticked at once. */
  lemma ChoiceAnswers(h: Host, answer: string, ticked: seq<string>, listed: seq<string>)
    ensures Holds(h, "in", Arr(Texts(listed)), Str(answer)) <==> answer in listed
    ensures Holds(h, "in", Arr(Texts(listed)), Arr(Texts(ticked))) <==> exists t :: t in ticked && t in listed
    ensures Holds(h, "is_empty", Undefined, Arr(Texts(ticked))) <==> ticked == []
    ensures Holds(h, "is_not_empty", Undefined, Arr(Texts(ticked))) <==> ticked != []
  {
    InTexts(h, [answer], listed);
    InTexts(h, ticked, listed);
    assert AsList(Str(answer)) == Texts([answer]);
    if ticked != [] { assert |Texts(ticked)| > 0; }
  }

  function Texts(texts: seq<string>): (list: seq<JsValue>)
    ensures |list| == |texts| && forall i :: 0 <= i < |list| ==> list[i] == Str(texts[i])
  {
    seq(|texts|, i requires 0 <= i < |texts| => Str(texts[i]))
  }

  lemma InTexts(h: Host, ticked: seq<string>, listed: seq<string>)
    ensures IsInValue(h, Arr(Texts(ticked)), Arr(Texts(listed))) <==> exists t :: t in ticked && t in listed
  {
    var xs, ys := Texts(ticked), Texts(listed);
    if t :| t in ticked && t in listed {
      var i :| 0 <= i < |ticked| && ticked[i] == t;
      var j :| 0 <= j < |listed| && listed[j] == t;
      assert xs[i] in xs && ys[j] in ys && IsEqualValue(h, xs[i], ys[j]);
    }
    if IsInValue(h, Arr(xs), Arr(ys)) {
      var a, c :| a in xs && c in ys && IsEqualValue(h, a, c);
      var i :| 0 <= i < |xs| && xs[i] == a;
      var j :| 0 <= j < |ys| && ys[j] == c;
      assert xs[i] == Str(ticked[i]) && ys[j] == Str(listed[j]);
      assert ticked[i] in ticked && listed[j] in listed;
    }
  }

  /** A number against a number. */
  lemma NumberAnswers(h: Host, answer: real, bound: real)
    ensures Holds(h, "greater_than", Num(Finite(bound)), Num(Finite(answer))) <==> answer > bound
    ensures Holds(h, "less_than", Num(Finite(bound)), Num(Finite(answer))) <==> answer < bound
    ensures !Holds(h, "is_empty", Undefined, Num(Finite(answer)))
  {}

  /** No answer at all. */
  lemma MissingAnswers(h: Host, missing: JsValue, text: string, listed: seq<string>)
    requires missing.Null? || missing.Undefined?
    ensures !Holds(h, "equals", Str(text), missing) && Holds(h, "not_equals", Str(text), missing)
    ensures !Holds(h, "contains", Str(text), missing) && Holds(h, "not_contains", Str(text), missing)
    ensures !Holds(h, "in", Arr(Texts(listed)), missing) && Holds(h, "equals", missing, missing)
    ensures Holds(h, "is_empty", Undefined, missing) && !Holds(h, "is_not_empty", Undefined, missing)
  {}

  lemma MissingNumbers(h: Host, missing: JsValue, bound: JsValue)
    requires missing.Null? || missing.Undefined?
    ensures !Holds(h, "greater_than", bound, missing) && !Holds(h, "less_than", bound, missing)
  {}

  /** An operator the evaluator does not know holds of nothing. */
  lemma UnknownNeverHolds(h: Host, operator: string, expected: JsValue, answer: JsValue)
    requires operator !in {"equals", "not_equals", "in", "contains", "not_contains",
                           "greater_than", "less_than", "is_empty", "is_not_empty"}
    ensures !Holds(h, operator, expected, answer)
  {}
}
