/** The contradiction guard: conditions on one field, joined by AND, that can never all hold. */
module ConditionGuard {
  import opened Prelude
  import opened JsValues
  import opened Conditions
  import opened FieldPairs
  import opened Sequences

  datatype Reason =
    | EqualsConflict | EqualsNotEqualsConflict | EmptyConflict | EmptyEqualsConflict
    | RangeConflict | ContainsConflict | EmptyInConflict | EqualsInConflict | InInConflict

  datatype Conflict = Conflict(reason: Reason, fieldId: string, indices: seq<nat>, values: seq<JsValue>)

  predicate SameKey(h: Host, a: JsValue, b: JsValue) {
    if IsNullish(a) || IsNullish(b) then a == b else StringOf(h, a) == StringOf(h, b)
  }

  predicate IsEmptyLiteral(v: JsValue) {
    IsNullish(v) || v == Str("")
  }

  function ToStringList(v: JsValue): (r: seq<JsValue>)
    ensures forall e :: e in r ==> e in AsList(v) && e.Str?
    ensures v.Arr? ==> forall e :: e in v.elems && e.Str? ==> e in r
  {
    if v.Arr? then FilterHolds((e: JsValue) => e.Str?, v.elems); Filter((e: JsValue) => e.Str?, v.elems) else []
  }

  predicate EqualsInConflicts(h: Host, equalsValue: JsValue, inValue: JsValue) {
    && !IsNullish(equalsValue)
    && ',' !in StringOf(h, equalsValue)
    && ToStringList(inValue) != []
    && !exists c :: c in ToStringList(inValue) && SameKey(h, equalsValue, c)
  }

  predicate InInDisjoint(a: JsValue, b: JsValue) {
    && ToStringList(a) != [] && ToStringList(b) != []
    && !exists e :: e in ToStringList(a) && e in ToStringList(b)
  }

  /** The type-free check on two conditions of one field. */
  function CheckTier1Pair(h: Host, a: Condition, b: Condition): Option<Reason> {
    var opA, opB := OperatorOf(a.operator), OperatorOf(b.operator);
    if (opA == IsEmpty && opB == IsNotEmpty) || (opA == IsNotEmpty && opB == IsEmpty) then
      Some(EmptyConflict)
    else if opA == IsEmpty && opB == Equals && !IsEmptyLiteral(b.value) then Some(EmptyEqualsConflict)
    else if opB == IsEmpty && opA == Equals && !IsEmptyLiteral(a.value) then Some(EmptyEqualsConflict)
    else if opA == Equals && opB == Equals && !SameKey(h, a.value, b.value) then Some(EqualsConflict)
    else if ((opA == Equals && opB == NotEquals) || (opA == NotEquals && opB == Equals))
            && SameKey(h, a.value, b.value) then Some(EqualsNotEqualsConflict)
    else if ((opA == GreaterThan && opB == LessThan) || (opA == LessThan && opB == GreaterThan))
            && RangeIsEmpty(h, if opA == GreaterThan then a.value else b.value,
                            if opA == LessThan then a.value else b.value) then Some(RangeConflict)
    else if opA == Contains && opB == NotContains
            && Includes(TextOrEmpty(h, a.value), TextOrEmpty(h, b.value)) then Some(ContainsConflict)
    else if opB == Contains && opA == NotContains
            && Includes(TextOrEmpty(h, b.value), TextOrEmpty(h, a.value)) then Some(ContainsConflict)
    else if opA == Equals && opB == In && EqualsInConflicts(h, a.value, b.value) then Some(EqualsInConflict)
    else if opB == Equals && opA == In && EqualsInConflicts(h, b.value, a.value) then Some(EqualsInConflict)
    else None
  }

  predicate RangeIsEmpty(h: Host, above: JsValue, below: JsValue) {
    var g, l := ToFiniteNumber(h, above), ToFiniteNumber(h, below);
    g.Some? && l.Some? && g.value >= l.value
  }

  // ---------------------------------------------------------------------------
  // One pair: when a reported contradiction really is one
  // ---------------------------------------------------------------------------

  /** No field value satisfies both conditions. */
  ghost predicate Contradictory(h: Host, a: Condition, b: Condition) {
    forall v :: !(HoldsOn(h, a, v) && HoldsOn(h, b, v))
  }

  /** Two rules read more into a stored value than the evaluator does: rule 4 takes every
      non-empty literal for one no empty value equals, and rule 8 sees only the strings of a
      list. Both are right exactly when the value's text says so. (Of lists compared with each other
      it sees only the strings as well: `DisjointInInExactly`.) */
  predicate TextsAgree(h: Host, a: Condition, b: Condition) {
    match (OperatorOf(a.operator), OperatorOf(b.operator))
    case (IsEmpty, Equals) => StringOf(h, b.value) != ""
    case (Equals, IsEmpty) => StringOf(h, a.value) != ""
    case (Equals, In) => NoElementReads(h, b.value, StringOf(h, a.value))
    case (In, Equals) => NoElementReads(h, a.value, StringOf(h, b.value))
    case _ => true
  }

  predicate NoElementReads(h: Host, list: JsValue, text: string) {
    forall c :: c in AsList(list) ==> ElemText(h, c) != text
  }

  /** The comma side condition: a value equal to a comma-free text and matching a list is,
      or holds as its only element, something that reads as that text. */
  lemma EqualAndInMeetInTheList(h: Host, x: JsValue, list: JsValue, v: JsValue)
    requires !IsNullish(x) && ',' !in StringOf(h, x)
    requires IsEqualValue(h, v, x) && IsInValue(h, v, list)
    ensures !NoElementReads(h, list, StringOf(h, x))
  {
    var a, c :| a in AsList(v) && c in AsList(list) && IsEqualValue(h, a, c);
    if v.Arr? {
      if |v.elems| >= 2 { JoinHasComma(h, v.elems); }
      assert v.elems == [a];
      assert StringOf(h, v) == JoinText(h, [a]) == ElemText(h, a);
    }
    assert ElemText(h, c) == ElemText(h, a) == StringOf(h, x);
  }

  lemma OneElementMeetsBoth(h: Host, x: JsValue, list: JsValue, c: JsValue)
    requires !IsNullish(x) && list.Arr? && c in list.elems && ElemText(h, c) == StringOf(h, x)
    ensures IsEqualValue(h, Arr([c]), x) && IsInValue(h, Arr([c]), list)
  {
    assert JoinText(h, [c]) == ElemText(h, c);
    assert c in AsList(Arr([c])) && c in AsList(list) && IsEqualValue(h, c, c);
  }

  /** A pair the guard reports is contradictory exactly when the texts agree. */
  lemma PairReportedExactly(h: Host, a: Condition, b: Condition)
    requires CheckTier1Pair(h, a, b).Some?
    ensures Contradictory(h, a, b) <==> TextsAgree(h, a, b)
  {
    var opA, opB := OperatorOf(a.operator), OperatorOf(b.operator);
    if (opA, opB) == (Equals, In) || (opA, opB) == (In, Equals) {
      var (e, l) := if opA == Equals then (a, b) else (b, a);
      if TextsAgree(h, a, b) {
        forall v ensures !(HoldsOn(h, e, v) && HoldsOn(h, l, v)) {
          if HoldsOn(h, e, v) && HoldsOn(h, l, v) {
            EqualAndInMeetInTheList(h, e.value, l.value, v);
          }
        }
      } else {
        var c :| c in AsList(l.value) && ElemText(h, c) == StringOf(h, e.value);
        OneElementMeetsBoth(h, e.value, l.value, c);
        assert HoldsOn(h, e, Arr([c])) && HoldsOn(h, l, Arr([c]));
      }
    } else if (opA, opB) == (Equals, IsEmpty) || (opA, opB) == (IsEmpty, Equals) {
      var (e, m) := if opA == Equals then (a, b) else (b, a);
      if !TextsAgree(h, a, b) {
        assert HoldsOn(h, e, Str("")) && HoldsOn(h, m, Str(""));
      } else {
        forall v ensures !(HoldsOn(h, e, v) && HoldsOn(h, m, v)) {}
      }
    } else {
      forall v ensures !(HoldsOn(h, a, v) && HoldsOn(h, b, v)) { PlainPairNeverHolds(h, a, b, v); }
    }
  }

  /** The rules that read no more into a stored value than the evaluator does. */
  lemma PlainPairNeverHolds(h: Host, a: Condition, b: Condition, v: JsValue)
    requires CheckTier1Pair(h, a, b).Some?
    requires CheckTier1Pair(h, a, b).value !in {EmptyEqualsConflict, EqualsInConflict}
    ensures !(HoldsOn(h, a, v) && HoldsOn(h, b, v))
  {
    match CheckTier1Pair(h, a, b).value {
      case EqualsConflict => KeysDecideEquality(h, a.value, b.value, v);
      case EqualsNotEqualsConflict => KeysDecideEquality(h, a.value, b.value, v);
      case ContainsConflict => ContainsPairNeverHolds(h, a, b, v);
      case _ =>
    }
  }

  lemma KeysDecideEquality(h: Host, x: JsValue, y: JsValue, v: JsValue)
    ensures IsEqualValue(h, v, x) ==> (IsEqualValue(h, v, y) <==> SameKey(h, x, y))
    ensures IsEqualValue(h, v, y) ==> (IsEqualValue(h, v, x) <==> SameKey(h, x, y))
  {}

  lemma ContainsPairNeverHolds(h: Host, a: Condition, b: Condition, v: JsValue)
    requires CheckTier1Pair(h, a, b) == Some(ContainsConflict)
    ensures !(HoldsOn(h, a, v) && HoldsOn(h, b, v))
  {
    if v.Str? {
      var x, y := TextOrEmpty(h, a.value), TextOrEmpty(h, b.value);
      if OperatorOf(a.operator) == Contains { ContainsAll(v.s, x, y); } else { ContainsAll(v.s, y, x); }
    }
  }

  lemma ContainsAll(text: string, outer: string, inner: string)
    requires Includes(outer, inner)
    ensures Includes(text, outer) ==> Includes(text, inner)
  {
    if Includes(text, outer) { IncludesTransitive(text, outer, inner); }
  }

  /** Stored values outside the schema do break the claim: `equals []` with `is_empty`. */
  lemma OutsideTheSchemaThePairIsSatisfiable(h: Host)
    ensures var a, b := Condition("f", "is_empty", Undefined), Condition("f", "equals", Arr([]));
            CheckTier1Pair(h, a, b) == Some(EmptyEqualsConflict) && HoldsOn(h, a, Str("")) && HoldsOn(h, b, Str(""))
  {}

  lemma SchemaShapedTextsAgree(h: Host, a: Condition, b: Condition)
    requires Lawful(h) && SchemaShaped(h, a) && SchemaShaped(h, b)
    requires CheckTier1Pair(h, a, b).Some?
    ensures TextsAgree(h, a, b)
  {
    var opA, opB := OperatorOf(a.operator), OperatorOf(b.operator);
    if (opA, opB) == (Equals, In) || (opA, opB) == (In, Equals) {
      var (e, l) := if opA == Equals then (a, b) else (b, a);
      NoStringReads(h, e.value, l.value);
    }
  }

  lemma NoStringReads(h: Host, x: JsValue, list: JsValue)
    requires IsStringList(list) && EqualsInConflicts(h, x, list)
    ensures NoElementReads(h, list, StringOf(h, x))
  {
    forall c | c in AsList(list) ensures ElemText(h, c) != StringOf(h, x) {
      assert c in ToStringList(list);
    }
  }

  lemma CheckIsSymmetric(h: Host, a: Condition, b: Condition)
    ensures CheckTier1Pair(h, a, b) == CheckTier1Pair(h, b, a)
  {}

  /** The kinds of pair the guard decides outright, for values the schema allows. */
  predicate Decides(h: Host, a: Condition, b: Condition) {
    match (OperatorOf(a.operator), OperatorOf(b.operator))
    case (Equals, Equals) => true
    case (Equals, NotEquals) => true
    case (IsEmpty, IsNotEmpty) => true
    case (IsEmpty, Equals) => true
    case (Contains, NotContains) => true
    case (Equals, In) => !IsNullish(a.value) && ',' !in StringOf(h, a.value)
    case _ => false
  }

  /** On those kinds, in either order, nothing is missed: what is not reported can be satisfied. */
  lemma DecidedPairsExactly(h: Host, a: Condition, b: Condition)
    requires Lawful(h) && SchemaShaped(h, a) && SchemaShaped(h, b)
    requires Decides(h, a, b) || Decides(h, b, a)
    ensures CheckTier1Pair(h, a, b).Some? <==> Contradictory(h, a, b)
  {
    if CheckTier1Pair(h, a, b).Some? {
      PairReportedExactly(h, a, b);
      SchemaShapedTextsAgree(h, a, b);
    } else if Decides(h, a, b) {
      UnreportedIsSatisfiable(h, a, b);
    } else {
      CheckIsSymmetric(h, a, b);
      UnreportedIsSatisfiable(h, b, a);
    }
  }

  /** A lower and an upper bound are reported exactly when no number lies strictly between them. */
  lemma RangeReportedExactly(h: Host, a: Condition, b: Condition)
    requires OperatorOf(a.operator) == GreaterThan && OperatorOf(b.operator) == LessThan
    requires ToFiniteNumber(h, a.value).Some? && ToFiniteNumber(h, b.value).Some?
    ensures CheckTier1Pair(h, a, b) == CheckTier1Pair(h, b, a)
    ensures CheckTier1Pair(h, a, b).Some? <==>
            !exists x: real :: Between(ToFiniteNumber(h, a.value).value, x, ToFiniteNumber(h, b.value).value)
  {
    var low, high := ToFiniteNumber(h, a.value).value, ToFiniteNumber(h, b.value).value;
    if low < high { assert Between(low, (low + high) / 2.0, high); }
  }

  predicate Between(low: real, x: real, high: real) {
    low < x < high
  }

  lemma UnreportedIsSatisfiable(h: Host, a: Condition, b: Condition)
    requires SchemaShaped(h, a) && SchemaShaped(h, b) && Decides(h, a, b) && CheckTier1Pair(h, a, b).None?
    ensures exists v :: HoldsOn(h, a, v) && HoldsOn(h, b, v)
  {
    if OperatorOf(b.operator) == In {
      assert b.value.elems[0] in b.value.elems;
      var c :| c in ToStringList(b.value) && SameKey(h, a.value, c);
      assert c in AsList(c) && IsEqualValue(h, c, c);
      assert HoldsOn(h, a, c) && HoldsOn(h, b, c);
    } else {
      var v := if OperatorOf(a.operator) == Equals then a.value
               else if OperatorOf(a.operator) == IsEmpty then b.value
               else Str(TextOrEmpty(h, a.value));
      IncludesItself(TextOrEmpty(h, a.value));
      assert HoldsOn(h, a, v) && HoldsOn(h, b, v);
    }
  }

  // ---------------------------------------------------------------------------
  // The whole report
  // ---------------------------------------------------------------------------

  /** The two conditions at `i` and `j` as the report states them. */
  function PairConflict(h: Host, conditions: seq<Condition>, single: set<string>, i: nat, j: nat): Option<Conflict>
    requires i < |conditions| && j < |conditions|
  {
    var a, b := conditions[i], conditions[j];
    match CheckTier1Pair(h, a, b)
    case Some(reason) => Some(Conflict(reason, a.fieldId, [i, j], [a.value, b.value]))
    case None =>
      if a.fieldId in single && OperatorOf(a.operator) == In && OperatorOf(b.operator) == In
         && InInDisjoint(a.value, b.value)
      then Some(Conflict(InInConflict, a.fieldId, [i, j], [a.value, b.value]))
      else None
  }

  predicate EmptyIn(c: Condition) {
    OperatorOf(c.operator) == In && c.value == Arr([])
  }

  ghost predicate EmptyInReport(conditions: seq<Condition>, c: Conflict) {
    && |c.indices| == 1 && c.indices[0] < |conditions|
    && var condition := conditions[c.indices[0]];
    && EmptyIn(condition)
    && c == Conflict(EmptyInConflict, condition.fieldId, c.indices, [condition.value])
  }

  ghost predicate PairReport(h: Host, conditions: seq<Condition>, single: set<string>, c: Conflict) {
    && |c.indices| == 2 && c.indices[0] < c.indices[1] < |conditions|
    && conditions[c.indices[0]].fieldId == conditions[c.indices[1]].fieldId != ""
    && PairConflict(h, conditions, single, c.indices[0], c.indices[1]) == Some(c)
  }

  /** The report is about one empty `in` list, or about two conditions of one named field. */
  ghost predicate Reported(h: Host, conditions: seq<Condition>, single: set<string>, c: Conflict) {
    EmptyInReport(conditions, c) || PairReport(h, conditions, single, c)
  }

  predicate SingleValued(v: JsValue) {
    v.Arr? ==> |v.elems| <= 1
  }

  lemma InInIsContradictory(h: Host, a: Condition, b: Condition, v: JsValue)
    requires Typed(a) && Typed(b) && InInDisjoint(a.value, b.value)
    requires IsInValue(h, v, a.value) && IsInValue(h, v, b.value)
    ensures v.Arr? && |v.elems| >= 2
  {
    var x, c :| x in AsList(v) && c in AsList(a.value) && IsEqualValue(h, x, c);
    var y, d :| y in AsList(v) && d in AsList(b.value) && IsEqualValue(h, y, d);
    if SingleValued(v) { OneAnswer(v, x, y); }
    OneCannotBeBoth(h, a.value, b.value, x, c, d);
  }

  lemma OneAnswer(v: JsValue, x: JsValue, y: JsValue)
    requires SingleValued(v) && x in AsList(v) && y in AsList(v)
    ensures x == y
  {}

  lemma OneCannotBeBoth(h: Host, a: JsValue, b: JsValue, x: JsValue, c: JsValue, d: JsValue)
    requires IsStringList(a) && IsStringList(b) && InInDisjoint(a, b)
    requires c in a.elems && d in b.elems
    ensures !(IsEqualValue(h, x, c) && IsEqualValue(h, x, d))
  {
    assert c in ToStringList(a) && d in ToStringList(b);
  }

  /** Some value of one list and some of the other are one to `equals`: the same null or undefined, or
      one text. */
  predicate ShareAReading(h: Host, a: JsValue, b: JsValue) {
    exists c, d :: c in AsList(a) && d in AsList(b) && SameKey(h, c, d)
  }

  /** The rule compares only the strings of the lists. A pair it finds disjoint is contradictory on
      single-valued fields exactly when the lists share no reading at all. */
  lemma DisjointInInExactly(h: Host, a: JsValue, b: JsValue)
    requires InInDisjoint(a, b)
    ensures (exists v :: SingleValued(v) && IsInValue(h, v, a) && IsInValue(h, v, b)) <==> ShareAReading(h, a, b)
  {
    if v :| SingleValued(v) && IsInValue(h, v, a) && IsInValue(h, v, b) { SingleMeetsBoth(h, a, b, v); }
    if c, d :| c in AsList(a) && d in AsList(b) && SameKey(h, c, d) {
      assert c in AsList(Arr([c])) && IsEqualValue(h, c, c) && IsEqualValue(h, c, d);
      assert SingleValued(Arr([c])) && IsInValue(h, Arr([c]), a) && IsInValue(h, Arr([c]), b);
    }
  }

  lemma SingleMeetsBoth(h: Host, a: JsValue, b: JsValue, v: JsValue)
    requires SingleValued(v) && IsInValue(h, v, a) && IsInValue(h, v, b)
    ensures ShareAReading(h, a, b)
  {
    var x, c :| x in AsList(v) && c in AsList(a) && IsEqualValue(h, x, c);
    var y, d :| y in AsList(v) && d in AsList(b) && IsEqualValue(h, y, d);
    assert x == y;
    assert SameKey(h, c, d);
  }

  /** Outside the schema such a pair can be satisfied: both lists hold `true` beside their strings. */
  lemma UntypedListsMeet(h: Host)
    ensures var a, b := Arr([Str("x"), Bool(true)]), Arr([Str("y"), Bool(true)]);
            InInDisjoint(a, b) && IsInValue(h, Bool(true), a) && IsInValue(h, Bool(true), b)
  {
    var a, b := Arr([Str("x"), Bool(true)]), Arr([Str("y"), Bool(true)]);
    assert a.elems[0] == Str("x") && b.elems[0] == Str("y");
    assert a.elems[1] in AsList(a) && b.elems[1] in AsList(b) && Bool(true) in AsList(Bool(true));
    assert IsEqualValue(h, Bool(true), Bool(true));
    forall e | e in ToStringList(a) ensures e !in ToStringList(b) { assert "x"[0] != "y"[0]; }
  }

  /** Two conditions of one field that are reported together: no value of the field satisfies both.
      The `in`/`in` reports promise it for a scalar or at most one element. */
  lemma ReportedPairNeverHolds(h: Host, a: Condition, b: Condition, v: JsValue)
    requires Lawful(h) && SchemaShaped(h, a) && SchemaShaped(h, b)
    requires CheckTier1Pair(h, a, b).Some? || (SingleValued(v) && InInDisjoint(a.value, b.value))
    requires CheckTier1Pair(h, a, b).None? ==> OperatorOf(a.operator) == In && OperatorOf(b.operator) == In
    ensures !(HoldsOn(h, a, v) && HoldsOn(h, b, v))
  {
    if CheckTier1Pair(h, a, b).Some? {
      PairReportedExactly(h, a, b);
      SchemaShapedTextsAgree(h, a, b);
    } else if HoldsOn(h, a, v) && HoldsOn(h, b, v) {
      InInIsContradictory(h, a, b, v);
    }
  }

  lemma EmptyInNeverHolds(h: Host, c: Condition, v: JsValue)
    requires EmptyIn(c)
    ensures !HoldsOn(h, c, v)
  {}

  // ---------------------------------------------------------------------------
  // The algorithm: group by field, then compare pairs
  // ---------------------------------------------------------------------------

  function FieldIds(conditions: seq<Condition>): (r: seq<string>)
    ensures |r| == |conditions| && forall i :: 0 <= i < |r| ==> r[i] == conditions[i].fieldId
  {
    seq(|conditions|, i requires 0 <= i < |conditions| => conditions[i].fieldId)
  }

  /** What comparing conditions `i` and `j` adds to the report. */
  function Comparing(h: Host, conditions: seq<Condition>, single: set<string>): (nat, nat) -> seq<Conflict> {
    (i: nat, j: nat) =>
      if i < |conditions| && j < |conditions| then
        match PairConflict(h, conditions, single, i, j)
        case Some(c) => [c]
        case None => []
      else []
  }

  function EmptyIns(conditions: seq<Condition>, upTo: nat): seq<Conflict>
    requires upTo <= |conditions|
  {
    if upTo == 0 then []
    else
      var c := conditions[upTo - 1];
      EmptyIns(conditions, upTo - 1)
      + if EmptyIn(c) then [Conflict(EmptyInConflict, c.fieldId, [upTo - 1], [c.value])] else []
  }

  function Report(h: Host, conditions: seq<Condition>, logic: string, single: set<string>): seq<Conflict> {
    if h.upper(logic) != "AND" then []
    else
      EmptyIns(conditions, |conditions|) + ByKey(Comparing(h, conditions, single), "", FieldIds(conditions))
  }

  method FindConditionConflicts(h: Host, conditions: seq<Condition>, logic: string, single: set<string>)
    returns (conflicts: seq<Conflict>)
    ensures conflicts == Report(h, conditions, logic, single)
  {
    conflicts := [];
    if h.upper(logic) != "AND" { return; }
    for index := 0 to |conditions|
      invariant conflicts == EmptyIns(conditions, index)
    {
      var c := conditions[index];
      if EmptyIn(c) {
        conflicts := conflicts + [Conflict(EmptyInConflict, c.fieldId, [index], [c.value])];
      }
    }
    var pairs := CompareWithinKeys(Comparing(h, conditions, single), "", FieldIds(conditions));
    conflicts := conflicts + pairs;
  }

  lemma {:induction false} EmptyInsHold(conditions: seq<Condition>, upTo: nat, c: Conflict)
    requires upTo <= |conditions|
    ensures c in EmptyIns(conditions, upTo) <==> EmptyInReport(conditions, c) && c.indices[0] < upTo
  {
    if upTo > 0 {
      EmptyInsHold(conditions, upTo - 1, c);
      if EmptyInReport(conditions, c) && c.indices[0] == upTo - 1 { assert c.indices == [upTo - 1]; }
    }
  }

  /** The report lists every empty `in` and every conflicting pair of one field, and nothing else. */
  lemma ReportExactly(h: Host, conditions: seq<Condition>, logic: string, single: set<string>, c: Conflict)
    requires h.upper(logic) == "AND"
    ensures c in Report(h, conditions, logic, single) <==> Reported(h, conditions, single, c)
  {
    var compare, ids := Comparing(h, conditions, single), FieldIds(conditions);
    EmptyInsHold(conditions, |conditions|, c);
    ComparedExactly(compare, "", ids, c);
    PairsExactly(h, conditions, single, c);
  }

  lemma PairsExactly(h: Host, conditions: seq<Condition>, single: set<string>, c: Conflict)
    ensures var compare, ids := Comparing(h, conditions, single), FieldIds(conditions);
            PairReport(h, conditions, single, c) <==>
            exists i, j :: 0 <= i < j < |ids| && ids[i] == ids[j] != "" && c in compare(i, j)
  {
    var compare, ids := Comparing(h, conditions, single), FieldIds(conditions);
    if i: nat, j: nat :| 0 <= i < j < |ids| && ids[i] == ids[j] != "" && c in compare(i, j) {
      assert c.indices == [i, j];
    }
    if PairReport(h, conditions, single, c) {
      var i, j := c.indices[0], c.indices[1];
      assert ids[i] == ids[j] != "" && c in compare(i, j);
    }
  }

  /** A report that holds for this form: type-free, or about a field with at most one element. */
  predicate AppliesTo(c: Conflict, form: FormData) {
    c.reason == InInConflict ==> SingleValued(form(c.fieldId))
  }

  /** Soundness of the guard: if it reports anything that applies about schema-shaped conditions, no
      form data satisfies them all. */
  lemma GuardIsSound(h: Host, conditions: seq<Condition>, logic: string, single: set<string>, form: FormData)
    requires Lawful(h)
    requires forall i :: 0 <= i < |conditions| ==> SchemaShaped(h, conditions[i]) || EmptyIn(conditions[i])
    ensures (exists c :: c in Report(h, conditions, logic, single) && AppliesTo(c, form)) ==>
              !EvaluateRuleConditions(h, conditions, logic, form)
  {
    if c :| c in Report(h, conditions, logic, single) && AppliesTo(c, form) {
      ReportExactly(h, conditions, logic, single, c);
      if EmptyInReport(conditions, c) {
        var i := c.indices[0];
        EmptyInNeverHolds(h, conditions[i], form(conditions[i].fieldId));
        assert !EvaluateRuleCondition(h, conditions[i], form);
      } else {
        var a, b := conditions[c.indices[0]], conditions[c.indices[1]];
        PairRefutes(h, a, b, form);
        assert !EvaluateRuleCondition(h, a, form) || !EvaluateRuleCondition(h, b, form);
      }
    }
  }

  /** What a conflict tells: the conditions it is about, in order, with their field and values. */
  lemma ConflictTells(h: Host, conditions: seq<Condition>, logic: string, single: set<string>, c: Conflict)
    requires c in Report(h, conditions, logic, single)
    ensures |c.indices| == |c.values| && 1 <= |c.indices| <= 2 && (|c.indices| == 2 ==> c.indices[0] < c.indices[1])
    ensures forall p :: 0 <= p < |c.indices| ==>
              c.indices[p] < |conditions| && conditions[c.indices[p]].fieldId == c.fieldId && conditions[c.indices[p]].value == c.values[p]
  {
    ReportExactly(h, conditions, logic, single, c);
  }

  /** And its reason names the operators of those conditions. */
  predicate Names(reason: Reason, a: Operator, b: Operator) {
    match reason
    case EqualsConflict => {a, b} == {Equals}
    case EqualsNotEqualsConflict => {a, b} == {Equals, NotEquals}
    case EmptyConflict => {a, b} == {IsEmpty, IsNotEmpty}
    case EmptyEqualsConflict => {a, b} == {IsEmpty, Equals}
    case RangeConflict => {a, b} == {GreaterThan, LessThan}
    case ContainsConflict => {a, b} == {Contains, NotContains}
    case EqualsInConflict => {a, b} == {Equals, In}
    case InInConflict => {a, b} == {In}
    case EmptyInConflict => false
  }

  lemma ReasonNames(h: Host, a: Condition, b: Condition)
    ensures CheckTier1Pair(h, a, b).Some? ==> Names(CheckTier1Pair(h, a, b).value, OperatorOf(a.operator), OperatorOf(b.operator))
  {}

  lemma PairReasonNames(h: Host, conditions: seq<Condition>, logic: string, single: set<string>, c: Conflict)
    requires c in Report(h, conditions, logic, single) && |c.indices| == 2
    ensures c.indices[0] < |conditions| && c.indices[1] < |conditions|
    ensures Names(c.reason, OperatorOf(conditions[c.indices[0]].operator), OperatorOf(conditions[c.indices[1]].operator))
  {
    ReportExactly(h, conditions, logic, single, c);
    ReasonNames(h, conditions[c.indices[0]], conditions[c.indices[1]]);
  }

  /** Nothing is missed of what the guard decides: under AND an empty `in` is always reported, and so is
      every contradictory pair of one named field that is of a decided kind. */
  lemma NothingDecidedIsMissed(h: Host, conditions: seq<Condition>, logic: string, single: set<string>, i: nat, j: nat)
    requires Lawful(h) && h.upper(logic) == "AND" && i < j < |conditions|
    requires SchemaShaped(h, conditions[i]) && SchemaShaped(h, conditions[j]) && conditions[i].fieldId == conditions[j].fieldId
    requires Decides(h, conditions[i], conditions[j]) || Decides(h, conditions[j], conditions[i])
    requires Contradictory(h, conditions[i], conditions[j])
    ensures exists c :: c in Report(h, conditions, logic, single) && c.indices == [i, j]
  {
    DecidedPairsExactly(h, conditions[i], conditions[j]);
    var c := PairConflict(h, conditions, single, i, j).value;
    ReportExactly(h, conditions, logic, single, c);
    assert c in Report(h, conditions, logic, single) && c.indices == [i, j];
  }

  lemma EmptyInIsReported(h: Host, conditions: seq<Condition>, logic: string, single: set<string>, i: nat)
    requires h.upper(logic) == "AND" && i < |conditions| && conditions[i].operator == "in" && conditions[i].value == Arr([])
    ensures Conflict(EmptyInConflict, conditions[i].fieldId, [i], [conditions[i].value]) in Report(h, conditions, logic, single)
  {
    ReportExactly(h, conditions, logic, single, Conflict(EmptyInConflict, conditions[i].fieldId, [i], [conditions[i].value]));
  }

  /** Under any other logic nothing is reported. */
  lemma OnlyAndIsGuarded(h: Host, conditions: seq<Condition>, logic: string, single: set<string>)
    requires h.upper(logic) != "AND"
    ensures Report(h, conditions, logic, single) == []
  {}

  /** A report on two `in` conditions needs its field to be among those the caller named. */
  lemma InInNeedsOption(h: Host, conditions: seq<Condition>, logic: string, single: set<string>, c: Conflict)
    requires c in Report(h, conditions, logic, single) && c.reason == InInConflict
    ensures c.fieldId in single
  {
    ReportExactly(h, conditions, logic, single, c);
  }

  /** So if the fields named are single-valued in the form, any report at all makes the rule false on
      it, and without such fields on every form. */
  lemma EveryReportRefutes(h: Host, conditions: seq<Condition>, logic: string, single: set<string>, form: FormData)
    requires Lawful(h)
    requires forall i :: 0 <= i < |conditions| ==> SchemaShaped(h, conditions[i]) || EmptyIn(conditions[i])
    requires forall f :: f in single ==> SingleValued(form(f))
    ensures Report(h, conditions, logic, single) != [] ==> !EvaluateRuleConditions(h, conditions, logic, form)
  {
    var report := Report(h, conditions, logic, single);
    GuardIsSound(h, conditions, logic, single, form);
    if report != [] {
      assert report[0] in report;
      if report[0].reason == InInConflict { InInNeedsOption(h, conditions, logic, single, report[0]); }
      assert AppliesTo(report[0], form);
    }
  }

  /** No single-valued answer satisfies both. */
  ghost predicate SinglyContradictory(h: Host, a: Condition, b: Condition) {
    forall v :: SingleValued(v) ==> !(HoldsOn(h, a, v) && HoldsOn(h, b, v))
  }

  /** Two typed `in` conditions on a field named single-valued are reported exactly when no
      single-valued answer satisfies both. */
  lemma InInReportedExactly(h: Host, conditions: seq<Condition>, single: set<string>, i: nat, j: nat)
    requires i < |conditions| && j < |conditions| && SchemaShaped(h, conditions[i]) && SchemaShaped(h, conditions[j])
    requires OperatorOf(conditions[i].operator) == OperatorOf(conditions[j].operator) == In && conditions[i].fieldId in single
    ensures PairConflict(h, conditions, single, i, j).Some? <==> SinglyContradictory(h, conditions[i], conditions[j])
  {
    DisjointTypedExactly(h, conditions[i], conditions[j]);
  }

  lemma DisjointTypedExactly(h: Host, a: Condition, b: Condition)
    requires SchemaShaped(h, a) && SchemaShaped(h, b) && OperatorOf(a.operator) == OperatorOf(b.operator) == In
    ensures InInDisjoint(a.value, b.value) <==> SinglyContradictory(h, a, b)
  {
    if InInDisjoint(a.value, b.value) {
      forall v | SingleValued(v) && HoldsOn(h, a, v) && HoldsOn(h, b, v) ensures false { InInIsContradictory(h, a, b, v); }
    } else {
      var e := SharedString(a.value, b.value);
      SharedMatches(h, a.value, e);
      SharedMatches(h, b.value, e);
      assert SingleValued(e) && HoldsOn(h, a, e) && HoldsOn(h, b, e);
    }
  }

  lemma SharedString(a: JsValue, b: JsValue) returns (e: JsValue)
    requires IsStringList(a) && IsStringList(b) && a.elems != [] && b.elems != [] && !InInDisjoint(a, b)
    ensures e in a.elems && e in b.elems && e.Str?
  {
    assert a.elems[0] in a.elems && b.elems[0] in b.elems;
    assert a.elems[0] in ToStringList(a) && b.elems[0] in ToStringList(b);
    e :| e in ToStringList(a) && e in ToStringList(b);
  }

  lemma SharedMatches(h: Host, list: JsValue, e: JsValue)
    requires list.Arr? && e in list.elems && e.Str?
    ensures IsInValue(h, e, list)
  {
    assert e in AsList(e) && e in AsList(list) && IsEqualValue(h, e, e);
  }

  lemma PairRefutes(h: Host, a: Condition, b: Condition, form: FormData)
    requires Lawful(h) && a.fieldId == b.fieldId
    requires SchemaShaped(h, a) || EmptyIn(a)
    requires SchemaShaped(h, b) || EmptyIn(b)
    requires CheckTier1Pair(h, a, b).Some? ||
             (OperatorOf(a.operator) == OperatorOf(b.operator) == In && InInDisjoint(a.value, b.value) && SingleValued(form(a.fieldId)))
    ensures !EvaluateRuleCondition(h, a, form) || !EvaluateRuleCondition(h, b, form)
  {
    var v := form(a.fieldId);
    if EmptyIn(a) {
      EmptyInNeverHolds(h, a, v);
    } else if EmptyIn(b) {
      EmptyInNeverHolds(h, b, v);
    } else {
      ReportedPairNeverHolds(h, a, b, v);
    }
  }
}
