/** When two conditions with one operator act alike, whatever their stored values: the measure of
    what a fingerprint may merge. */
module MergedRules {
  import opened Conditions
  import opened ConditionSignature
  import opened Doubles
  import opened JsValues
  import opened Prelude

  /** A value that can occur: its numbers are numbers there are. */
  ghost predicate Occurs(v: JsValue) {
    match v
    case Num(n) => IsNumber(n)
    case Arr(elems) => forall i :: 0 <= i < |elems| ==> Occurs(elems[i])
    case _ => true
  }

  ghost predicate ActAlike(h: Host, a: Condition, b: Condition) {
    forall v :: Occurs(v) ==> (HoldsOn(h, a, v) <==> HoldsOn(h, b, v))
  }

  predicate EqualAlike(h: Host, a: JsValue, b: JsValue) {
    if IsNullish(a) || IsNullish(b) then a == b else StringOf(h, a) == StringOf(h, b)
  }

  /** What `in` looks for: nothing for null and undefined, a single value for a scalar. */
  function Candidates(v: JsValue): seq<JsValue> {
    if IsNullish(v) then [] else AsList(v)
  }

  ghost function Texts(h: Host, list: seq<JsValue>): set<string> {
    set e | e in list && !IsNullish(e) :: StringOf(h, e)
  }

  ghost predicate InAlike(h: Host, a: JsValue, b: JsValue) {
    && (Null in Candidates(a) <==> Null in Candidates(b))
    && (Undefined in Candidates(a) <==> Undefined in Candidates(b))
    && Texts(h, Candidates(a)) == Texts(h, Candidates(b))
  }

  /** The bound of a comparison that some double can pass. */
  function Passable(bound: Option<real>): Option<real> {
    if bound.Some? && bound.value < Largest() then bound else None
  }

  function Opposite(bound: Option<real>): Option<real> {
    if bound.Some? then Some(-bound.value) else None
  }

  ghost predicate Alike(h: Host, op: Operator, a: JsValue, b: JsValue) {
    match op
    case Equals => EqualAlike(h, a, b)
    case NotEquals => EqualAlike(h, a, b)
    case In => InAlike(h, a, b)
    case Contains => TextOrEmpty(h, a) == TextOrEmpty(h, b)
    case NotContains => TextOrEmpty(h, a) == TextOrEmpty(h, b)
    case GreaterThan => Passable(ToFiniteNumber(h, a)) == Passable(ToFiniteNumber(h, b))
    case LessThan => Passable(Opposite(ToFiniteNumber(h, a))) == Passable(Opposite(ToFiniteNumber(h, b)))
    case _ => true
  }

  // ---------------------------------------------------------------------------
  // Operator by operator
  // ---------------------------------------------------------------------------

  lemma EqualsExactly(h: Host, a: JsValue, b: JsValue)
    ensures (forall v :: Occurs(v) ==> (IsEqualValue(h, v, a) <==> IsEqualValue(h, v, b))) <==> EqualAlike(h, a, b)
  {
    if !EqualAlike(h, a, b) {
      var v := if IsNullish(a) then a else if IsNullish(b) then b else Str(StringOf(h, a));
      assert Occurs(v) && IsEqualValue(h, v, a) != IsEqualValue(h, v, b);
    }
  }

  lemma SameIncludes(s: string, t: string)
    requires Includes(s, t) && Includes(t, s)
    ensures s == t
  {
    var i :| 0 <= i <= |s| && OccursAt(s, t, i);
    var j :| 0 <= j <= |t| && OccursAt(t, s, j);
    assert |s| == |t| && s[0..|s|] == s && i == 0;
  }

  lemma ContainsExactly(s: string, t: string)
    ensures (forall u :: Includes(u, s) <==> Includes(u, t)) <==> s == t
  {
    IncludesItself(s);
    IncludesItself(t);
    if forall u :: Includes(u, s) <==> Includes(u, t) {
      assert Includes(s, t) && Includes(t, s);
      SameIncludes(s, t);
    }
  }

  ghost predicate Matches(h: Host, candidates: seq<JsValue>, x: JsValue) {
    if IsNullish(x) then x in candidates else StringOf(h, x) in Texts(h, candidates)
  }

  lemma InMeans(h: Host, v: JsValue, expected: JsValue)
    ensures IsInValue(h, v, expected) <==> exists x :: x in AsList(v) && Matches(h, Candidates(expected), x)
  {
    if IsInValue(h, v, expected) {
      var x, c :| x in AsList(v) && c in AsList(expected) && IsEqualValue(h, x, c);
      assert x in AsList(v) && Matches(h, Candidates(expected), x);
    }
    if x :| x in AsList(v) && Matches(h, Candidates(expected), x) {
      var c :| c in AsList(expected) && IsEqualValue(h, x, c);
    }
  }

  lemma InOne(h: Host, x: JsValue, expected: JsValue)
    requires !x.Arr?
    ensures IsInValue(h, x, expected) <==> Matches(h, Candidates(expected), x)
  {
    InMeans(h, x, expected);
    assert AsList(x) == [x];
  }

  lemma InExactly(h: Host, a: JsValue, b: JsValue)
    ensures (forall v :: Occurs(v) ==> (IsInValue(h, v, a) <==> IsInValue(h, v, b))) <==> InAlike(h, a, b)
  {
    if InAlike(h, a, b) {
      forall v ensures IsInValue(h, v, a) <==> IsInValue(h, v, b) {
        InMeans(h, v, a);
        InMeans(h, v, b);
        assert forall x :: Matches(h, Candidates(a), x) <==> Matches(h, Candidates(b), x);
      }
    }
    if forall v :: Occurs(v) ==> (IsInValue(h, v, a) <==> IsInValue(h, v, b)) {
      InTells(h, a, b, Null);
      InTells(h, a, b, Undefined);
      forall t ensures t in Texts(h, Candidates(a)) <==> t in Texts(h, Candidates(b)) {
        InTells(h, a, b, Str(t));
      }
    }
  }

  lemma InTells(h: Host, a: JsValue, b: JsValue, x: JsValue)
    requires forall v :: Occurs(v) ==> (IsInValue(h, v, a) <==> IsInValue(h, v, b))
    requires Occurs(x) && !x.Arr?
    ensures Matches(h, Candidates(a), x) <==> Matches(h, Candidates(b), x)
  {
    InOne(h, x, a);
    InOne(h, x, b);
  }

  predicate Exceeds(x: Option<real>, bound: Option<real>) {
    x.Some? && bound.Some? && x.value > bound.value
  }

  /** Two bounds let the same doubles pass exactly when they agree wherever a double can pass. */
  lemma PassesExactly(a: Option<real>, b: Option<real>)
    requires (a.Some? ==> IsDouble(a.value)) && (b.Some? ==> IsDouble(b.value))
    ensures (forall x :: IsDouble(x) ==> (Exceeds(Some(x), a) <==> Exceeds(Some(x), b))) <==> Passable(a) == Passable(b)
  {
    LargestIsDouble();
    forall x | IsDouble(x) ensures x <= Largest() { WithinLargest(x); }
    if Passable(a) != Passable(b) {
      var x := if Passable(a).None? || Passable(b).None? then Largest()
               else if a.value < b.value then b.value else a.value;
      assert IsDouble(x) && Exceeds(Some(x), a) != Exceeds(Some(x), b);
    }
  }

  lemma GreaterExactly(h: Host, a: Condition, b: Condition)
    requires Lawful(h) && Occurs(a.value) && Occurs(b.value)
    requires OperatorOf(a.operator) == OperatorOf(b.operator) == GreaterThan
    ensures ActAlike(h, a, b) <==> Passable(ToFiniteNumber(h, a.value)) == Passable(ToFiniteNumber(h, b.value))
  {
    var x, y := ToFiniteNumber(h, a.value), ToFiniteNumber(h, b.value);
    PassesExactly(x, y);
    if ActAlike(h, a, b) {
      forall d | IsDouble(d) ensures Exceeds(Some(d), x) <==> Exceeds(Some(d), y) {
        assert Occurs(Num(Finite(d)));
        assert HoldsOn(h, a, Num(Finite(d))) <==> HoldsOn(h, b, Num(Finite(d)));
      }
    }
  }

  lemma LessExactly(h: Host, a: Condition, b: Condition)
    requires Lawful(h) && Occurs(a.value) && Occurs(b.value)
    requires OperatorOf(a.operator) == OperatorOf(b.operator) == LessThan
    ensures ActAlike(h, a, b) <==>
            Passable(Opposite(ToFiniteNumber(h, a.value))) == Passable(Opposite(ToFiniteNumber(h, b.value)))
  {
    var x, y := ToFiniteNumber(h, a.value), ToFiniteNumber(h, b.value);
    forall d | IsDouble(d) ensures IsDouble(-d) { NegatedDouble(d); }
    PassesExactly(Opposite(x), Opposite(y));
    if ActAlike(h, a, b) {
      forall d | IsDouble(d) ensures Exceeds(Some(d), Opposite(x)) <==> Exceeds(Some(d), Opposite(y)) { LessOn(h, a, b, d); }
    } else {
      var v :| Occurs(v) && (HoldsOn(h, a, v) != HoldsOn(h, b, v));
      LessTells(h, a, b, v);
    }
  }

  lemma LessOn(h: Host, a: Condition, b: Condition, d: real)
    requires ActAlike(h, a, b) && IsDouble(d)
    requires OperatorOf(a.operator) == OperatorOf(b.operator) == LessThan
    ensures Exceeds(Some(d), Opposite(ToFiniteNumber(h, a.value))) <==> Exceeds(Some(d), Opposite(ToFiniteNumber(h, b.value)))
  {
    NegatedDouble(d);
    assert Occurs(Num(Finite(-d)));
    assert HoldsOn(h, a, Num(Finite(-d))) <==> HoldsOn(h, b, Num(Finite(-d)));
  }

  /** A value that tells two bounds from below apart has a number that does. */
  lemma LessTells(h: Host, a: Condition, b: Condition, v: JsValue)
    requires Lawful(h) && Occurs(v) && HoldsOn(h, a, v) != HoldsOn(h, b, v)
    requires OperatorOf(a.operator) == OperatorOf(b.operator) == LessThan
    ensures exists d :: IsDouble(d) && Exceeds(Some(d), Opposite(ToFiniteNumber(h, a.value)))
                                       != Exceeds(Some(d), Opposite(ToFiniteNumber(h, b.value)))
  {
    var n := ToFiniteNumber(h, v).value;
    assert IsDouble(n);
    NegatedDouble(n);
    assert Exceeds(Some(-n), Opposite(ToFiniteNumber(h, a.value))) != Exceeds(Some(-n), Opposite(ToFiniteNumber(h, b.value)));
  }

  /** Exactly when two conditions with one operator act alike on every value of their field. */
  lemma ActAlikeExactly(h: Host, a: Condition, b: Condition)
    requires Lawful(h) && Occurs(a.value) && Occurs(b.value)
    requires OperatorOf(a.operator) == OperatorOf(b.operator)
    ensures ActAlike(h, a, b) <==> Alike(h, OperatorOf(a.operator), a.value, b.value)
  {
    match OperatorOf(a.operator) {
      case Equals => EqualsExactly(h, a.value, b.value);
      case NotEquals => EqualsExactly(h, a.value, b.value);
      case In => InExactly(h, a.value, b.value);
      case Contains => TextsExactly(h, a, b);
      case NotContains => TextsExactly(h, a, b);
      case GreaterThan => GreaterExactly(h, a, b);
      case LessThan => LessExactly(h, a, b);
      case _ =>
    }
  }

  lemma TextsExactly(h: Host, a: Condition, b: Condition)
    requires OperatorOf(a.operator) == OperatorOf(b.operator)
    requires OperatorOf(a.operator) in {Contains, NotContains}
    ensures ActAlike(h, a, b) <==> TextOrEmpty(h, a.value) == TextOrEmpty(h, b.value)
  {
    ContainsExactly(TextOrEmpty(h, a.value), TextOrEmpty(h, b.value));
    if ActAlike(h, a, b) {
      forall u ensures Includes(u, TextOrEmpty(h, a.value)) <==> Includes(u, TextOrEmpty(h, b.value)) {
        assert Occurs(Str(u));
        assert HoldsOn(h, a, Str(u)) <==> HoldsOn(h, b, Str(u));
      }
    }
  }

  /** Two single-condition rules with one fingerprint act alike exactly when their values are alike
      for the operator: lists may differ in null, undefined or their joined text, and an object may
      stand where a numeral does. */
  lemma MergedActAlikeExactly(h: Host, a: Condition, b: Condition, logic: string)
    requires Lawful(h) && Occurs(a.value) && Occurs(b.value)
    requires Signature(h, [a], logic) == Signature(h, [b], logic)
    ensures ActAlike(h, a, b) <==>
            match OperatorOf(a.operator)
            case In => a.value.Arr? ==> InAlike(h, a.value, b.value)
            case GreaterThan => a.value.Obj? == b.value.Obj? || Alike(h, GreaterThan, a.value, b.value)
            case LessThan => a.value.Obj? == b.value.Obj? || Alike(h, LessThan, a.value, b.value)
            case Equals => a.value.Arr? ==> StringOf(h, a.value) == StringOf(h, b.value)
            case NotEquals => a.value.Arr? ==> StringOf(h, a.value) == StringOf(h, b.value)
            case Contains => a.value.Arr? ==> StringOf(h, a.value) == StringOf(h, b.value)
            case NotContains => a.value.Arr? ==> StringOf(h, a.value) == StringOf(h, b.value)
            case _ => true
  {
    SignatureExactly(h, [a], [b], logic, logic);
    assert [a][0].operator == [b][0].operator && SameImage(h, [a][0].value, [b][0].value);
    ActAlikeExactly(h, a, b);
    if a.value.Obj? == b.value.Obj? { ImageNumber(h, a.value, b.value); }
  }

  lemma ImageNumber(h: Host, a: JsValue, b: JsValue)
    requires Lawful(h) && Occurs(a) && Occurs(b) && SameImage(h, a, b) && a.Obj? == b.Obj?
    ensures ToFiniteNumber(h, a) == ToFiniteNumber(h, b)
  {
    if !a.Obj? { SameImageSameNumber(h, a, b); }
  }

  /** Whole rules: one fingerprint and values alike position by position evaluate alike on every form. */
  lemma AlikeRulesEvaluateAlike(h: Host, xs: seq<Condition>, ys: seq<Condition>, logicX: string, logicY: string, form: FormData)
    requires Lawful(h) && Signature(h, xs, logicX) == Signature(h, ys, logicY) && |xs| == |ys|
    requires forall i :: 0 <= i < |xs| ==> Occurs(xs[i].value) && Occurs(ys[i].value)
    requires forall i :: 0 <= i < |xs| ==> Alike(h, OperatorOf(xs[i].operator), xs[i].value, ys[i].value)
    requires forall f :: Occurs(form(f))
    ensures EvaluateRuleConditions(h, xs, logicX, form) <==> EvaluateRuleConditions(h, ys, logicY, form)
  {
    SignatureExactly(h, xs, ys, logicX, logicY);
    forall i | 0 <= i < |xs| ensures EvaluateRuleCondition(h, xs[i], form) <==> EvaluateRuleCondition(h, ys[i], form) {
      ActAlikeExactly(h, xs[i], ys[i]);
      assert Occurs(form(xs[i].fieldId));
    }
  }
}
