/** The canonical fingerprint of a condition set: equal fingerprints, equal behaviour. */
module ConditionSignature {
  import opened JsValues
  import opened Conditions
  import opened JsonText

  function ElementTexts(h: Host, elems: seq<JsValue>): (r: seq<Json>)
    ensures |r| == |elems|
    ensures forall i :: 0 <= i < |r| ==> r[i] == Text(StringOf(h, elems[i]))
  {
    seq(|elems|, i requires 0 <= i < |elems| => Text(StringOf(h, elems[i])))
  }

  function CanonicalValueKey(h: Host, v: JsValue): string {
    match v
    case Null => "null"
    case Undefined => "undefined"
    case Arr(elems) => Stringify(List([Text("arr"), List(ElementTexts(h, elems))]))
    case _ => Stringify(List([Text("val"), Text(StringOf(h, v))]))
  }

  function Part(h: Host, c: Condition): Json {
    List([Text(c.fieldId), Text(c.operator), Text(CanonicalValueKey(h, c.value))])
  }

  function Parts(h: Host, conditions: seq<Condition>): (r: seq<Json>)
    ensures |r| == |conditions|
    ensures forall i :: 0 <= i < |r| ==> r[i] == Part(h, conditions[i])
  {
    seq(|conditions|, i requires 0 <= i < |conditions| => Part(h, conditions[i]))
  }

  function Signature(h: Host, conditions: seq<Condition>, logic: string): string {
    Stringify(List([Text(h.upper(logic)), List(Parts(h, conditions))]))
  }

  /** The same value up to the text image of a scalar: what the fingerprint can see. */
  predicate SameImage(h: Host, a: JsValue, b: JsValue) {
    if IsNullish(a) || IsNullish(b) then a == b
    else if a.Arr? || b.Arr? then
      a.Arr? && b.Arr? && |a.elems| == |b.elems|
      && forall i :: 0 <= i < |a.elems| ==> StringOf(h, a.elems[i]) == StringOf(h, b.elems[i])
    else StringOf(h, a) == StringOf(h, b)
  }

  lemma KeyStart(h: Host, v: JsValue)
    ensures |CanonicalValueKey(h, v)| > 0
    ensures CanonicalValueKey(h, v)[0] == '[' <==> !IsNullish(v)
  {}

  lemma KeyExactly(h: Host, a: JsValue, b: JsValue)
    ensures CanonicalValueKey(h, a) == CanonicalValueKey(h, b) <==> SameImage(h, a, b)
  {
    KeyStart(h, a);
    KeyStart(h, b);
    if IsNullish(a) && IsNullish(b) {
      assert "null" != "undefined" by { assert |"null"| != |"undefined"|; }
    } else if !IsNullish(a) && !IsNullish(b) {
      if CanonicalValueKey(h, a) == CanonicalValueKey(h, b) {
        var ja := if a.Arr? then List([Text("arr"), List(ElementTexts(h, a.elems))]) else List([Text("val"), Text(StringOf(h, a))]);
        var jb := if b.Arr? then List([Text("arr"), List(ElementTexts(h, b.elems))]) else List([Text("val"), Text(StringOf(h, b))]);
        StringifyInjective(ja, jb);
        assert ja.items[0] == jb.items[0] && ja.items[1] == jb.items[1];
        assert "arr"[0] != "val"[0];
        if a.Arr? {
          forall i | 0 <= i < |a.elems| ensures StringOf(h, a.elems[i]) == StringOf(h, b.elems[i]) {
            assert ElementTexts(h, a.elems)[i] == ElementTexts(h, b.elems)[i];
          }
        }
      }
      if SameImage(h, a, b) && a.Arr? {
        assert ElementTexts(h, a.elems) == ElementTexts(h, b.elems);
      }
    }
  }

  /** A number and its text (300 and "300"), a boolean and its name, act alike everywhere. */
  lemma SameImageSameNumber(h: Host, a: JsValue, b: JsValue)
    requires Lawful(h) && SameImage(h, a, b)
    requires !a.Obj? && !b.Obj? && (a.Num? ==> IsNumber(a.n)) && (b.Num? ==> IsNumber(b.n))
    ensures ToFiniteNumber(h, a) == ToFiniteNumber(h, b)
  {
    if a.Num? && b.Num? {
      assert a.n == h.parseNumber(h.trim(h.numberText(a.n))) == b.n;
    }
  }

  lemma ListElementsCorrespond(h: Host, a: JsValue, b: JsValue)
    requires IsStringList(a) && IsStringList(b) && SameImage(h, a, b)
    ensures a == b
  {
    forall i | 0 <= i < |a.elems| ensures a.elems[i] == b.elems[i] {
      assert a.elems[i] in a.elems && b.elems[i] in b.elems;
    }
  }

  lemma InScalar(h: Host, v: JsValue, x: JsValue)
    requires !x.Arr? && !IsNullish(x)
    ensures IsInValue(h, v, x) <==> exists y :: y in AsList(v) && IsEqualValue(h, y, x)
  {
    assert AsList(x) == [x];
    if y :| y in AsList(v) && IsEqualValue(h, y, x) { assert x in AsList(x); }
  }

  /** What an operator reads of a scalar: its equals, its number and its text. */
  lemma AlikeScalarsActAlike(h: Host, a: Condition, b: Condition, v: JsValue)
    requires a.operator == b.operator && !a.value.Arr? && !b.value.Arr? && !IsNullish(a.value) && !IsNullish(b.value)
    requires forall x :: IsEqualValue(h, x, a.value) <==> IsEqualValue(h, x, b.value)
    requires ToFiniteNumber(h, a.value) == ToFiniteNumber(h, b.value) && TextOrEmpty(h, a.value) == TextOrEmpty(h, b.value)
    ensures HoldsOn(h, a, v) <==> HoldsOn(h, b, v)
  {
    InScalar(h, v, a.value);
    InScalar(h, v, b.value);
  }

  lemma SameImageActsAlike(h: Host, a: Condition, b: Condition, v: JsValue)
    requires Lawful(h) && Typed(a) && Typed(b)
    requires a.operator == b.operator && SameImage(h, a.value, b.value)
    ensures HoldsOn(h, a, v) <==> HoldsOn(h, b, v)
  {
    if a.value.Arr? {
      ListElementsCorrespond(h, a.value, b.value);
    } else if !IsNullish(a.value) {
      SameImageSameNumber(h, a.value, b.value);
      AlikeScalarsActAlike(h, a, b, v);
    }
  }

  /** Equal fingerprints mean the same logic and, position by position, the same field, the same
      operator and the same value image. */
  lemma SignatureExactly(h: Host, xs: seq<Condition>, ys: seq<Condition>, logicX: string, logicY: string)
    ensures Signature(h, xs, logicX) == Signature(h, ys, logicY) <==>
            h.upper(logicX) == h.upper(logicY) && |xs| == |ys|
            && forall i :: 0 <= i < |xs| ==>
              xs[i].fieldId == ys[i].fieldId && xs[i].operator == ys[i].operator && SameImage(h, xs[i].value, ys[i].value)
  {
    var jx, jy := List([Text(h.upper(logicX)), List(Parts(h, xs))]), List([Text(h.upper(logicY)), List(Parts(h, ys))]);
    if Signature(h, xs, logicX) == Signature(h, ys, logicY) {
      StringifyInjective(jx, jy);
      assert jx.items[0] == jy.items[0] && jx.items[1] == jy.items[1];
      forall i | 0 <= i < |xs| ensures
        xs[i].fieldId == ys[i].fieldId && xs[i].operator == ys[i].operator && SameImage(h, xs[i].value, ys[i].value)
      {
        var px, py := Part(h, xs[i]), Part(h, ys[i]);
        assert Parts(h, xs)[i] == Parts(h, ys)[i];
        assert px.items[0] == py.items[0] && px.items[1] == py.items[1] && px.items[2] == py.items[2];
        KeyExactly(h, xs[i].value, ys[i].value);
      }
    }
    if h.upper(logicX) == h.upper(logicY) && |xs| == |ys| {
      if forall i :: 0 <= i < |xs| ==>
          xs[i].fieldId == ys[i].fieldId && xs[i].operator == ys[i].operator && SameImage(h, xs[i].value, ys[i].value) {
        forall i | 0 <= i < |xs| ensures Parts(h, xs)[i] == Parts(h, ys)[i] {
          KeyExactly(h, xs[i].value, ys[i].value);
        }
        assert Parts(h, xs) == Parts(h, ys);
      }
    }
  }

  /** A rule whose fingerprint is unchanged prices every form exactly as before. */
  lemma UnchangedSignatureUnchangedRule(h: Host, xs: seq<Condition>, ys: seq<Condition>,
                                        logicX: string, logicY: string, form: FormData)
    requires Lawful(h) && Signature(h, xs, logicX) == Signature(h, ys, logicY)
    requires forall c :: c in xs + ys ==> Typed(c)
    ensures EvaluateRuleConditions(h, xs, logicX, form) <==> EvaluateRuleConditions(h, ys, logicY, form)
  {
    SignatureExactly(h, xs, ys, logicX, logicY);
    forall i | 0 <= i < |xs| ensures EvaluateRuleCondition(h, xs[i], form) <==> EvaluateRuleCondition(h, ys[i], form) {
      assert xs[i] in xs + ys && ys[i] in xs + ys;
      SameImageActsAlike(h, xs[i], ys[i], form(xs[i].fieldId));
    }
  }

  /** A save that turns every scalar into its text leaves the fingerprint alone. */
  lemma RoundTripKeepsSignature(h: Host, xs: seq<Condition>, logic: string)
    requires forall c :: c in xs ==> Typed(c)
    ensures Signature(h, xs, logic) == Signature(h, Saved(h, xs), logic)
    ensures forall i :: 0 <= i < |xs| && !IsNullish(xs[i].value) && !xs[i].value.Arr? ==>
                          Saved(h, xs)[i] == xs[i].(value := Str(StringOf(h, xs[i].value)))
  {
    SignatureExactly(h, xs, Saved(h, xs), logic, logic);
  }

  function Saved(h: Host, xs: seq<Condition>): (r: seq<Condition>)
    ensures |r| == |xs|
  {
    seq(|xs|, i requires 0 <= i < |xs| =>
      var v := xs[i].value;
      xs[i].(value := if IsNullish(v) || v.Arr? then v else Str(StringOf(h, v))))
  }

  /** Outside the static type the fingerprint does merge rules: `in [null]` and `in ["null"]`. */
  lemma UntypedListsCollide(h: Host)
    ensures var a, b := Condition("f", "in", Arr([Null])), Condition("f", "in", Arr([Str("null")]));
            && Signature(h, [a], "AND") == Signature(h, [b], "AND")
            && HoldsOn(h, a, Null) && !HoldsOn(h, b, Null)
  {
    var a, b := Condition("f", "in", Arr([Null])), Condition("f", "in", Arr([Str("null")]));
    SignatureExactly(h, [a], [b], "AND", "AND");
    assert IsEqualValue(h, Null, Null) && Null in AsList(Null) && Null in AsList(a.value);
  }
}
