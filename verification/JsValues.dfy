/** JavaScript values as the rule evaluator meets them in form data and stored conditions,
    and the coercions it applies to them. */
module JsValues {
  import opened Doubles
  import opened Prelude

  /** A JavaScript number; -0 is not told apart from 0 (no operator here can). */
  datatype JsNumber = Finite(value: real) | NaN | PosInfinity | NegInfinity

  /** `Obj` stands for anything else (a plain object, a Date, a function): all that the
      evaluator ever observes of it is its string image. */
  datatype JsValue =
    | Null
    | Undefined
    | Bool(b: bool)
    | Num(n: JsNumber)
    | Str(s: string)
    | Arr(elems: seq<JsValue>)
    | Obj(text: string)

  /** Host primitives whose exact text tables do not matter here. */
  datatype Host = Host(
    numberText: JsNumber -> string,   // String(n)
    parseNumber: string -> JsNumber,  // Number(text)
    trim: string -> string,
    upper: string -> string)

  /** The numbers there are: doubles, NaN and the infinities. */
  ghost predicate IsNumber(n: JsNumber) {
    n.Finite? ==> IsDouble(n.value)
  }

  /** What ECMA-262 promises of them (sections 6.1.6.1.20 and 7.1.4.1): a number's text is not
      blank and reads back as that number, a text reads as a number, and the two boolean names are
      not numerals. */
  ghost predicate Lawful(h: Host) {
    && (forall n :: IsNumber(n) ==> h.numberText(n) != "" && h.trim(h.numberText(n)) != "")
    && (forall n :: IsNumber(n) ==> h.parseNumber(h.trim(h.numberText(n))) == n)
    && (forall s :: IsNumber(h.parseNumber(s)))
    && !h.parseNumber(h.trim("true")).Finite?
    && !h.parseNumber(h.trim("false")).Finite?
  }

  predicate IsNullish(v: JsValue) {
    v.Null? || v.Undefined?
  }

  /** `String(v)`. */
  function StringOf(h: Host, v: JsValue): string
    decreases v, 0
  {
    match v
    case Null => "null"
    case Undefined => "undefined"
    case Bool(b) => if b then "true" else "false"
    case Num(n) => h.numberText(n)
    case Str(s) => s
    case Arr(elems) => JoinText(h, elems)
    case Obj(text) => text
  }

  /** How one element appears inside a joined array: null and undefined leave nothing. */
  function ElemText(h: Host, v: JsValue): string
    decreases v, 1
  {
    if IsNullish(v) then "" else StringOf(h, v)
  }

  /** Array.prototype.join with the default separator (ECMA-262 section 23.1.3.18). */
  function JoinText(h: Host, elems: seq<JsValue>): string
    decreases elems
  {
    if |elems| == 0 then ""
    else if |elems| == 1 then ElemText(h, elems[0])
    else ElemText(h, elems[0]) + "," + JoinText(h, elems[1..])
  }

  /** A joined array of two or more elements always shows the separator. */
  lemma JoinHasComma(h: Host, elems: seq<JsValue>)
    requires |elems| >= 2
    ensures ',' in JoinText(h, elems)
  {
    var first := ElemText(h, elems[0]);
    assert JoinText(h, elems)[|first|] == ',';
  }

  predicate OccursAt(text: string, part: string, i: nat) {
    i + |part| <= |text| && text[i..i + |part|] == part
  }

  /** `text.includes(part)`. */
  predicate Includes(text: string, part: string) {
    exists i :: 0 <= i <= |text| && OccursAt(text, part, i)
  }

  lemma IncludesTransitive(a: string, b: string, c: string)
    requires Includes(a, b) && Includes(b, c)
    ensures Includes(a, c)
  {
    var i :| 0 <= i <= |a| && OccursAt(a, b, i);
    var j :| 0 <= j <= |b| && OccursAt(b, c, j);
    forall k | 0 <= k < |c| ensures a[i + j + k] == c[k] {
      assert a[i..i + |b|][j + k] == b[j..j + |c|][k];
    }
    assert OccursAt(a, c, i + j);
  }

  lemma IncludesItself(a: string)
    ensures Includes(a, a)
  {
    assert OccursAt(a, a, 0);
  }

  /** `String(value ?? "")`. */
  function TextOrEmpty(h: Host, v: JsValue): string {
    if IsNullish(v) then "" else StringOf(h, v)
  }

  /** The finite number a value stands for, when it is a number or a numeric string. */
  function ToFiniteNumber(h: Host, v: JsValue): Option<real> {
    match v
    case Num(Finite(x)) => Some(x)
    case Str(s) =>
      var trimmed := h.trim(s);
      if trimmed == "" then None
      else (match h.parseNumber(trimmed)
            case Finite(x) => Some(x)
            case _ => None)
    case _ => None
  }
}
