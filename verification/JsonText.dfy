/** JSON.stringify of nested arrays of strings, and the fact that it loses nothing. Every
    encoder takes the text that follows, so no proof has to regroup concatenations. */
module JsonText {

  datatype Json = Text(s: string) | List(items: seq<Json>)

  function HexDigit(d: nat): char
    requires d < 16
  {
    if d < 10 then '0' + d as char else 'a' + (d - 10) as char
  }

  /** QuoteJSONString (ECMA-262 section 25.5.2.3) on one character. */
  function EscapeChar(c: char): string {
    if c == '\"' || c == '\\' then ['\\', c]
    else if c as int == 8 then ['\\', 'b']
    else if c as int == 9 then ['\\', 't']
    else if c as int == 10 then ['\\', 'n']
    else if c as int == 12 then ['\\', 'f']
    else if c as int == 13 then ['\\', 'r']
    else if c as int < 32 then ['\\', 'u', '0', '0', HexDigit(c as int / 16), HexDigit(c as int % 16)]
    else [c]
  }

  /** How a JSON reader takes an escaped character (RFC 8259 section 7): itself, unless it must be escaped;
      a short escape; or `\u` and four hexadecimal digits. */
  predicate Denotes(escape: string, c: char) {
    || (escape == [c] && c as int >= 32 && c != '\"' && c != '\\')
    || (escape == ['\\', c] && (c == '\"' || c == '\\'))
    || (escape == ['\\', 'b'] && c as int == 8)
    || (escape == ['\\', 't'] && c as int == 9)
    || (escape == ['\\', 'n'] && c as int == 10)
    || (escape == ['\\', 'f'] && c as int == 12)
    || (escape == ['\\', 'r'] && c as int == 13)
    || (|escape| == 6 && escape[..4] == ['\\', 'u', '0', '0'] && HexValue(escape[4]) >= 0 && HexValue(escape[5]) >= 0
        && 16 * HexValue(escape[4]) + HexValue(escape[5]) == c as int)
  }

  function HexValue(d: char): int {
    if '0' <= d <= '9' then d as int - '0' as int else if 'a' <= d <= 'f' then d as int - 'a' as int + 10 else -1
  }

  /** Every escape denotes its character. */
  lemma EscapesDenote(c: char)
    ensures Denotes(EscapeChar(c), c)
  {
    if c as int < 32 {
      var high, low := c as int / 16, c as int % 16;
      HexDenotes(high);
      HexDenotes(low);
      assert ['\\', 'u', '0', '0', HexDigit(high), HexDigit(low)][..4] == ['\\', 'u', '0', '0'];
    }
  }

  lemma HexDenotes(d: nat)
    requires d < 16
    ensures HexValue(HexDigit(d)) == d
  {}

  /** The escaped characters of `s`, the closing quote, then `rest`. */
  function Quoted(s: string, rest: string): string {
    if s == [] then ['\"'] + rest else EscapeChar(s[0]) + Quoted(s[1..], rest)
  }

  function Encode(j: Json, rest: string): string
    decreases j, 0
  {
    match j
    case Text(s) => ['\"'] + Quoted(s, rest)
    case List(items) => ['['] + EncodeItems(items, rest)
  }

  /** The items, the closing bracket, then `rest`. */
  function EncodeItems(items: seq<Json>, rest: string): string
    decreases items, 0
  {
    if items == [] then [']'] + rest
    else if |items| == 1 then Encode(items[0], [']'] + rest)
    else Encode(items[0], [','] + EncodeItems(items[1..], rest))
  }

  function Stringify(j: Json): string {
    Encode(j, "")
  }

  lemma ConsCancel<T>(a: T, x: seq<T>, b: T, y: seq<T>)
    requires [a] + x == [b] + y
    ensures a == b && x == y
  {
    assert ([a] + x)[0] == a && ([a] + x)[1..] == x;
    assert ([b] + y)[0] == b && ([b] + y)[1..] == y;
  }

  lemma PrefixCancel<T>(u: seq<T>, x: seq<T>, v: seq<T>, y: seq<T>)
    requires u + x == v + y && |u| == |v|
    ensures u == v && x == y
  {
    assert (u + x)[..|u|] == u && (u + x)[|u|..] == x;
    assert (v + y)[..|v|] == v && (v + y)[|v|..] == y;
  }

  lemma SharedStart<T>(u: seq<T>, x: seq<T>, v: seq<T>, y: seq<T>)
    requires u + x == v + y
    ensures forall i :: 0 <= i < |u| && i < |v| ==> u[i] == v[i]
  {
    forall i | 0 <= i < |u| && i < |v| ensures u[i] == v[i] {
      assert (u + x)[i] == u[i] && (v + y)[i] == v[i];
    }
  }

  /** No character's escape begins another's, and none begins with the quote. */
  lemma EscapeCharCancel(a: char, b: char, x: string, y: string)
    requires EscapeChar(a) + x == EscapeChar(b) + y
    ensures a == b && x == y
  {
    var u, v := EscapeChar(a), EscapeChar(b);
    SharedStart(u, x, v, y);
    assert u[0] == v[0];
    if u[0] == '\\' {
      assert u[1] == v[1];
      if u[1] == 'u' { assert u[4] == v[4] && u[5] == v[5]; }
    }
    PrefixCancel(u, x, v, y);
  }

  lemma EscapeCharNotQuote(a: char, x: string, y: string)
    ensures EscapeChar(a) + x != ['\"'] + y
  {
    assert (EscapeChar(a) + x)[0] == EscapeChar(a)[0];
    assert (['\"'] + y)[0] == '\"';
  }

  lemma {:induction false} QuotedCancel(s: string, t: string, x: string, y: string)
    requires Quoted(s, x) == Quoted(t, y)
    ensures s == t && x == y
  {
    if s == [] && t == [] {
      ConsCancel('\"', x, '\"', y);
    } else if t == [] {
      EscapeCharNotQuote(s[0], Quoted(s[1..], x), y);
    } else if s == [] {
      EscapeCharNotQuote(t[0], Quoted(t[1..], y), x);
    } else {
      EscapeCharCancel(s[0], t[0], Quoted(s[1..], x), Quoted(t[1..], y));
      QuotedCancel(s[1..], t[1..], x, y);
      assert s == [s[0]] + s[1..] && t == [t[0]] + t[1..];
    }
  }

  lemma EncodeFirst(j: Json, rest: string) returns (tail: string)
    ensures Encode(j, rest) == [if j.Text? then '\"' else '['] + tail
    ensures tail == if j.Text? then Quoted(j.s, rest) else EncodeItems(j.items, rest)
  {
    tail := if j.Text? then Quoted(j.s, rest) else EncodeItems(j.items, rest);
  }

  /** A document is recognisable inside any longer text: equal texts start with equal documents. */
  lemma {:induction false} EncodeCancel(a: Json, b: Json, x: string, y: string)
    requires Encode(a, x) == Encode(b, y)
    ensures a == b && x == y
    decreases a, 0
  {
    var tailA := EncodeFirst(a, x);
    var tailB := EncodeFirst(b, y);
    ConsCancel(if a.Text? then '\"' else '[', tailA, if b.Text? then '\"' else '[', tailB);
    if a.Text? {
      QuotedCancel(a.s, b.s, x, y);
    } else {
      EncodeItemsCancel(a.items, b.items, x, y);
    }
  }

  lemma {:induction false} EncodeItemsCancel(a: seq<Json>, b: seq<Json>, x: string, y: string)
    requires EncodeItems(a, x) == EncodeItems(b, y)
    ensures a == b && x == y
    decreases a, 0
  {
    if a == [] || b == [] {
      EmptyItemsCancel(a, b, x, y);
    } else {
      var sepA, sepB := if |a| == 1 then ']' else ',', if |b| == 1 then ']' else ',';
      var restA := if |a| == 1 then x else EncodeItems(a[1..], x);
      var restB := if |b| == 1 then y else EncodeItems(b[1..], y);
      EncodeCancel(a[0], b[0], [sepA] + restA, [sepB] + restB);
      ConsCancel(sepA, restA, sepB, restB);
      if |a| > 1 { EncodeItemsCancel(a[1..], b[1..], x, y); }
      assert a == [a[0]] + a[1..] && b == [b[0]] + b[1..];
    }
  }

  lemma EmptyItemsCancel(a: seq<Json>, b: seq<Json>, x: string, y: string)
    requires EncodeItems(a, x) == EncodeItems(b, y) && (a == [] || b == [])
    ensures a == b && x == y
  {
    if a != [] {
      var tail := EncodeFirst(a[0], if |a| == 1 then [']'] + x else [','] + EncodeItems(a[1..], x));
      ConsCancel(if a[0].Text? then '\"' else '[', tail, ']', y);
    } else if b != [] {
      var tail := EncodeFirst(b[0], if |b| == 1 then [']'] + y else [','] + EncodeItems(b[1..], y));
      ConsCancel(']', x, if b[0].Text? then '\"' else '[', tail);
    } else {
      ConsCancel(']', x, ']', y);
    }
  }

  lemma StringifyInjective(a: Json, b: Json)
    requires Stringify(a) == Stringify(b)
    ensures a == b
  {
    EncodeCancel(a, b, "", "");
  }
}
