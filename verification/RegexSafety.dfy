/** The star-height heuristic that keeps catastrophic user patterns from being compiled: a
    recursive-descent parser with one shared position, and what it computes on any text. */
module RegexSafety {
  import opened Doubles
  import opened Numerals
  import opened Prelude

  const MAX_REPETITION := 25

  /** A repetition bound as Number.parseInt returns it: numerals that round past the largest
      double read as Infinity (ECMA-262 section 6.1.6.1). */
  datatype Bound = Count(n: nat) | Unbounded

  const OVERFLOW_EXPONENT: nat := 970

  /** Half a unit in the last place above the largest double, where rounding reaches Infinity. */
  function Overflow(): nat {
    Pow2(OVERFLOW_EXPONENT) * 0x3F_FFFF_FFFF_FFFF
  }

  function BoundOf(n: nat): Bound {
    if n >= Overflow() then Unbounded else Count(n)
  }

  predicate Exceeds(b: Bound, limit: nat) {
    b.Unbounded? || b.n > limit
  }

  predicate Starts(s: string, c: char) {
    s != "" && s[0] == c
  }

  function Rest(s: string): string {
    if s == "" then "" else s[1..]
  }

  /** `\d*` from here: the value so far, and what follows. */
  function ReadDigits(s: string, value: nat): (nat, string) {
    if s != "" && IsDigit(s[0]) then ReadDigits(s[1..], value * 10 + (s[0] as int - '0' as int)) else (value, s)
  }

  datatype Braces = NoMatch | Match(lower: Bound, upper: Bound, rest: string)

  /** What `/^\{(\d*)(,(\d*))?\}/` matches, with the bounds the parser derives from it. */
  function MatchBraces(s: string): (m: Braces)
    ensures m.Match? ==> |m.rest| < |s|
  {
    if !Starts(s, '{') then NoMatch
    else
      var (low, afterLow) := ReadDigits(s[1..], 0);
      ReadDigitsShrinks(s[1..], 0);
      if Starts(afterLow, '}') then Match(BoundOf(low), BoundOf(low), afterLow[1..])
      else if Starts(afterLow, ',') then
        var (high, afterHigh) := ReadDigits(afterLow[1..], 0);
        ReadDigitsShrinks(afterLow[1..], 0);
        var unlimited := afterHigh == afterLow[1..];
        if Starts(afterHigh, '}')
        then Match(BoundOf(low), if unlimited then Unbounded else BoundOf(high), afterHigh[1..])
        else NoMatch
      else NoMatch
  }

  lemma ReadDigitsShrinks(s: string, value: nat)
    ensures |ReadDigits(s, value).1| <= |s|
  {}

  datatype Consumed = Plain | Quantified(repeats: bool, rest: string) | TooLarge

  function SkipModifier(s: string): string {
    if Starts(s, '?') || Starts(s, '+') then s[1..] else s
  }

  function ConsumeQuantifier(s: string): (q: Consumed)
    ensures q.Quantified? ==> |q.rest| < |s|
  {
    if Starts(s, '*') || Starts(s, '+') then Quantified(true, SkipModifier(s[1..]))
    else if Starts(s, '?') then Quantified(false, SkipModifier(s[1..]))
    else
      match MatchBraces(s)
      case NoMatch => Plain
      case Match(lower, upper, rest) =>
        if Exceeds(lower, MAX_REPETITION) || (upper.Count? && upper.n > MAX_REPETITION) then TooLarge
        else Quantified(Exceeds(upper, 1), SkipModifier(rest))
  }

  function AfterName(s: string): string {
    if s == "" then "" else if s[0] == '>' then s[1..] else AfterName(s[1..])
  }

  /** Past the flags of a group whose parenthesis is already consumed. */
  function AfterGroupPrefix(s: string): string {
    if !Starts(s, '?') then s
    else if !Starts(s[1..], '<') then Rest(s[1..])
    else if Starts(s[2..], '=') || Starts(s[2..], '!') then s[3..]
    else AfterName(s[1..])
  }

  lemma AfterGroupPrefixShrinks(s: string)
    ensures |AfterGroupPrefix(s)| <= |s|
  {
    if Starts(s, '?') { AfterNameShrinks(s[1..]); }
  }

  lemma AfterNameShrinks(s: string)
    ensures |AfterName(s)| <= |s|
  {}

  datatype ClassEnd = Unterminated | Closed(rest: string)

  function ClassItems(s: string): (e: ClassEnd)
    ensures e.Closed? ==> |e.rest| < |s|
  {
    if s == "" then Unterminated
    else if s[0] == ']' then Closed(s[1..])
    else if s[0] == '\\' then ClassItems(Rest(s[1..]))
    else ClassItems(s[1..])
  }

  /** A class whose bracket is already consumed; a leading `]` is read as a literal. */
  function ClassBody(s: string): (e: ClassEnd)
    ensures e.Closed? ==> |e.rest| < |s|
  {
    var t := if Starts(s, '^') then s[1..] else s;
    ClassItems(if Starts(t, ']') then t[1..] else t)
  }

  /** A parse from some position: the height found and the text left, or a thrown error. */
  datatype Parsed = Height(height: nat, rest: string) | Failed

  function Finish(s: string, inner: nat): (r: Parsed)
    ensures r.Height? ==> |r.rest| <= |s|
  {
    match ConsumeQuantifier(s)
    case Plain => Height(inner, s)
    case Quantified(repeats, rest) => Height(if repeats then inner + 1 else inner, rest)
    case TooLarge => Failed
  }

  /** One atom without its quantifier. */
  function ParseUnit(s: string): (r: Parsed)
    requires s != ""
    ensures r.Height? ==> |r.rest| < |s|
    decreases |s|, 0
  {
    if s[0] == '(' then
      AfterGroupPrefixShrinks(s[1..]);
      match ParseSequence(AfterGroupPrefix(s[1..]), 0)
      case Failed => Failed
      case Height(inner, rest) => if Starts(rest, ')') then Height(inner, rest[1..]) else Failed
    else if s[0] == '[' then
      match ClassBody(s[1..])
      case Unterminated => Failed
      case Closed(rest) => Height(0, rest)
    else if s[0] == '\\' then Height(0, Rest(s[1..]))
    else Height(0, s[1..])
  }

  function ParseAtom(s: string): (r: Parsed)
    requires s != ""
    ensures r.Height? ==> |r.rest| < |s|
    decreases |s|, 1
  {
    match ParseUnit(s)
    case Failed => Failed
    case Height(inner, rest) => Finish(rest, inner)
  }

  function ParseSequence(s: string, maxHeight: nat): (r: Parsed)
    ensures r.Height? ==> |r.rest| <= |s|
    decreases |s|, 2
  {
    if s == "" || s[0] == ')' then Height(maxHeight, s)
    else if s[0] == '|' then ParseSequence(s[1..], maxHeight)
    else
      match ParseAtom(s)
      case Failed => Failed
      case Height(h, rest) => ParseSequence(rest, Max(h, maxHeight))
  }

  /** The star height, or a failure for anything unbalanced or too large. */
  function MaxStarHeight(pattern: string): Parsed {
    match ParseSequence(pattern, 0)
    case Failed => Failed
    case Height(h, rest) => if rest == "" then Height(h, "") else Failed
  }

  predicate IsSafePattern(pattern: string, compiles: bool) {
    compiles && MaxStarHeight(pattern).Height? && MaxStarHeight(pattern).height <= 1
  }

  datatype Thrown<T> = Returned(value: T) | Threw

  /** The parser as it runs: one position shared by all its routines. */
  class Parser {
    const pattern: string
    var i: nat

    constructor (pattern: string)
      ensures this.pattern == pattern && Ahead() == pattern
    {
      this.pattern := pattern;
      i := 0;
    }

    /** The text from the position on (nothing once it has run past the end). */
    function Ahead(): (s: string)
      reads this
      ensures i < |pattern| ==> s != "" && s[0] == pattern[i] && s[1..] == pattern[i + 1..]
      ensures i >= |pattern| ==> s == ""
    {
      if i <= |pattern| then pattern[i..] else ""
    }

    predicate At(c: char)
      reads this
      ensures At(c) <==> Starts(Ahead(), c)
    {
      i < |pattern| && pattern[i] == c
    }

    method Advance()
      modifies this
      ensures i == old(i) + 1 && Ahead() == Rest(old(Ahead()))
    {
      i := i + 1;
    }

    method Run() returns (r: Thrown<nat>)
      modifies this
      requires i == 0
      ensures match MaxStarHeight(pattern)
              case Failed => r == Threw
              case Height(h, _) => r == Returned(h)
    {
      r := Sequence();
      if r.Returned? && i < |pattern| { r := Threw; }
    }

    method Sequence() returns (r: Thrown<nat>)
      modifies this
      ensures match old(ParseSequence(Ahead(), 0))
              case Failed => r == Threw
              case Height(h, rest) => r == Returned(h) && Ahead() == rest
      decreases |Ahead()|, 2
    {
      var maxHeight: nat := 0;
      while i < |pattern| && !At(')')
        invariant ParseSequence(Ahead(), maxHeight) == old(ParseSequence(Ahead(), 0))
        invariant |Ahead()| <= old(|Ahead()|)
        decreases |Ahead()|
      {
        if At('|') {
          Advance();
        } else {
          var atom := Atom();
          if atom.Threw? { return Threw; }
          if atom.value > maxHeight { maxHeight := atom.value; }
        }
      }
      return Returned(maxHeight);
    }

    method Atom() returns (r: Thrown<nat>)
      requires i < |pattern|
      modifies this
      ensures match old(ParseAtom(Ahead()))
              case Failed => r == Threw
              case Height(h, rest) => r == Returned(h) && Ahead() == rest
      decreases |Ahead()|, 1
    {
      r := Unit();
      if r.Threw? { return; }
      var q := Quantifier();
      match q {
        case Threw => r := Threw;
        case Returned(repeats) => if repeats { r := Returned(r.value + 1); }
      }
    }

    method Unit() returns (r: Thrown<nat>)
      requires i < |pattern|
      modifies this
      ensures match old(ParseUnit(Ahead()))
              case Failed => r == Threw
              case Height(h, rest) => r == Returned(h) && Ahead() == rest
      decreases |Ahead()|, 0
    {
      r := Returned(0);
      if At('(') {
        Advance();
        AfterGroupPrefixShrinks(Ahead());
        GroupPrefix();
        r := Sequence();
        if r.Threw? || !At(')') { return Threw; }
        Advance();
      } else if At('[') {
        Advance();
        var closed := Class();
        if !closed { return Threw; }
      } else if At('\\') {
        Advance();
        Advance();
      } else {
        Advance();
      }
    }

    method GroupPrefix()
      modifies this
      ensures Ahead() == AfterGroupPrefix(old(Ahead()))
    {
      if At('?') {
        Advance();
        if At('<') {
          if i + 1 < |pattern| && (pattern[i + 1] == '=' || pattern[i + 1] == '!') {
            Advance();
            Advance();
          } else {
            ghost var name := Ahead();
            while i < |pattern| && !At('>')
              invariant AfterName(Ahead()) == AfterName(name)
              decreases |Ahead()|
            {
              Advance();
            }
            if i < |pattern| { Advance(); }
          }
        } else {
          Advance();
        }
      }
    }

    method Class() returns (closed: bool)
      modifies this
      ensures match ClassBody(old(Ahead()))
              case Unterminated => !closed
              case Closed(rest) => closed && Ahead() == rest
    {
      if At('^') { Advance(); }
      if At(']') { Advance(); }
      ghost var items := Ahead();
      while i < |pattern| && !At(']')
        invariant ClassItems(Ahead()) == ClassItems(items)
        decreases |Ahead()|
      {
        if At('\\') { Advance(); }
        Advance();
      }
      closed := i < |pattern|;
      if closed { Advance(); }
    }

    method Quantifier() returns (r: Thrown<bool>)
      modifies this
      ensures match ConsumeQuantifier(old(Ahead()))
              case Plain => r == Returned(false) && Ahead() == old(Ahead())
              case Quantified(repeats, rest) => r == Returned(repeats) && Ahead() == rest
              case TooLarge => r == Threw
    {
      var repeats: bool;
      if At('*') || At('+') {
        Advance();
        repeats := true;
      } else if At('?') {
        Advance();
        repeats := false;
      } else {
        match MatchBraces(Ahead()) {
          case NoMatch => return Returned(false);
          case Match(lower, upper, rest) =>
            BracesAreASuffix(Ahead());
            i := |pattern| - |rest|;
            assert Ahead() == rest;
            if Exceeds(lower, MAX_REPETITION) || (upper.Count? && upper.n > MAX_REPETITION) { return Threw; }
            repeats := Exceeds(upper, 1);
        }
      }
      if At('?') || At('+') { Advance(); }
      return Returned(repeats);
    }
  }

  predicate IsSuffix(t: string, s: string) {
    |t| <= |s| && s[|s| - |t|..] == t
  }

  lemma {:induction false} DigitsAreASuffix(s: string, value: nat)
    ensures IsSuffix(ReadDigits(s, value).1, s)
  {
    if s != "" && IsDigit(s[0]) { DigitsAreASuffix(s[1..], value * 10 + (s[0] as int - '0' as int)); }
  }

  lemma SuffixOfSuffix(t: string, s: string, all: string)
    requires IsSuffix(t, s) && IsSuffix(s, all)
    ensures IsSuffix(t, all) && (t != "" ==> IsSuffix(t[1..], all))
  {}

  lemma BracesAreASuffix(s: string)
    ensures MatchBraces(s).Match? ==> IsSuffix(MatchBraces(s).rest, s)
  {
    if Starts(s, '{') {
      var afterLow := ReadDigits(s[1..], 0).1;
      DigitsAreASuffix(s[1..], 0);
      SuffixOfSuffix(afterLow, s[1..], s);
      if Starts(afterLow, ',') { SecondBoundIsASuffix(afterLow, s); }
    }
  }

  lemma SecondBoundIsASuffix(afterLow: string, s: string)
    requires afterLow != "" && IsSuffix(afterLow, s)
    ensures var afterHigh := ReadDigits(afterLow[1..], 0).1;
            IsSuffix(afterHigh, s) && (afterHigh != "" ==> IsSuffix(afterHigh[1..], s))
  {
    DigitsAreASuffix(afterLow[1..], 0);
    SuffixOfSuffix(afterLow, s, s);
    SuffixOfSuffix(ReadDigits(afterLow[1..], 0).1, afterLow[1..], s);
  }
}
