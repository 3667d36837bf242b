/** Pattern trees, their star height, the text they print as, and the parser's exactness on it.
    Every printer takes the text that follows. */
module RegexPrinter {
  import opened Doubles
  import opened Numerals
  import opened Prelude
  import opened RegexSafety

  datatype Repetition = Star | Plus | Maybe | Exactly(n: nat) | AtLeast(n: nat) | Between(lo: nat, hi: nat)

  datatype GroupKind =
    | Capturing | NonCapturing | Lookahead | NegativeLookahead | Lookbehind | NegativeLookbehind
    | Named(name: string)

  datatype ClassItem = Single(c: char) | Span(from: char, to: char) | ClassEscape(c: char)

  datatype Regex =
    | Empty
    | Literal(c: char)
    | Bare(symbol: BareSymbol)
    | Escaped(c: char)
    | Class(negated: bool, items: seq<ClassItem>)
    | Group(kind: GroupKind, body: Regex)
    | Cat(first: Regex, second: Regex)
    | Alt(left: Regex, right: Regex)
    | Repeat(body: Regex, times: Repetition, lazy: bool)

  datatype BareSymbol = AnyChar | LineStart | LineEnd

  // ---------------------------------------------------------------------------
  // Meaning
  // ---------------------------------------------------------------------------

  /** Can the repetition run its body more than once? */
  predicate Repeats(q: Repetition) {
    match q
    case Star => true
    case Plus => true
    case Maybe => false
    case Exactly(n) => n > 1
    case AtLeast(_) => true
    case Between(_, hi) => hi > 1
  }

  /** Nesting depth of repetitions that can run their body more than once. */
  function StarHeight(r: Regex): nat {
    match r
    case Group(_, body) => StarHeight(body)
    case Cat(a, b) => Max(StarHeight(a), StarHeight(b))
    case Alt(a, b) => Max(StarHeight(a), StarHeight(b))
    case Repeat(body, times, _) => StarHeight(body) + if Repeats(times) then 1 else 0
    case _ => 0
  }

  /** Some repetition bound exceeds the limit; an upper bound that reads as Infinity is none. */
  predicate Oversized(r: Regex) {
    match r
    case Group(_, body) => Oversized(body)
    case Cat(a, b) => Oversized(a) || Oversized(b)
    case Alt(a, b) => Oversized(a) || Oversized(b)
    case Repeat(body, times, _) => Oversized(body) || OversizedBound(times)
    case _ => false
  }

  predicate OversizedBound(q: Repetition) {
    match q
    case Exactly(n) => n > MAX_REPETITION
    case AtLeast(n) => n > MAX_REPETITION
    case Between(lo, hi) => lo > MAX_REPETITION || MAX_REPETITION < hi < Overflow()
    case _ => false
  }

  // ---------------------------------------------------------------------------
  // Text
  // ---------------------------------------------------------------------------

  const METACHARACTERS := {'\\', '^', '$', '.', '*', '+', '?', '(', ')', '[', ']', '{', '}', '|'}
  const CLASS_METACHARACTERS := {'\\', '^', '-', '[', ']'}

  /** Names hold no `>` and do not look like a lookbehind; classes are not empty. */
  predicate WellFormed(r: Regex) {
    match r
    case Class(_, items) => items != []
    case Group(kind, body) => WellFormed(body) && (kind.Named? ==> WellNamed(kind.name))
    case Cat(a, b) => WellFormed(a) && WellFormed(b)
    case Alt(a, b) => WellFormed(a) && WellFormed(b)
    case Repeat(body, _, _) => WellFormed(body)
    case _ => true
  }

  predicate WellNamed(name: string) {
    '>' !in name && name != "" && name[0] != '=' && name[0] != '!'
  }

  function Times(q: Repetition, k: string): string {
    match q
    case Star => ['*'] + k
    case Plus => ['+'] + k
    case Maybe => ['?'] + k
    case Exactly(n) => ['{'] + (Digits(n) + (['}'] + k))
    case AtLeast(n) => ['{'] + (Digits(n) + ([','] + (['}'] + k)))
    case Between(lo, hi) => ['{'] + (Digits(lo) + ([','] + (Digits(hi) + (['}'] + k))))
  }

  function NameText(name: string, k: string): string {
    if name == "" then k else [name[0]] + NameText(name[1..], k)
  }

  function Opening(kind: GroupKind, k: string): string {
    match kind
    case Capturing => k
    case NonCapturing => ['?'] + ([':'] + k)
    case Lookahead => ['?'] + (['='] + k)
    case NegativeLookahead => ['?'] + (['!'] + k)
    case Lookbehind => ['?'] + (['<'] + (['='] + k))
    case NegativeLookbehind => ['?'] + (['<'] + (['!'] + k))
    case Named(name) => ['?'] + (['<'] + NameText(name, ['>'] + k))
  }

  function ClassChar(c: char, k: string): string {
    if c in CLASS_METACHARACTERS then ['\\'] + ([c] + k) else [c] + k
  }

  function Items(items: seq<ClassItem>, k: string): string {
    if items == [] then k
    else
      match items[0]
      case Single(c) => ClassChar(c, Items(items[1..], k))
      case Span(from, to) => ClassChar(from, ['-'] + ClassChar(to, Items(items[1..], k)))
      case ClassEscape(c) => ['\\'] + ([c] + Items(items[1..], k))
  }

  predicate IsUnit(r: Regex) {
    r.Literal? || r.Bare? || r.Escaped? || r.Class? || r.Group?
  }

  function Print(r: Regex, k: string): string
    decreases r, 0
  {
    match r
    case Empty => k
    case Literal(c) => if c in METACHARACTERS then ['\\'] + ([c] + k) else [c] + k
    case Bare(symbol) => [match symbol case AnyChar => '.' case LineStart => '^' case LineEnd => '$'] + k
    case Escaped(c) => ['\\'] + ([c] + k)
    case Class(negated, items) =>
      ['['] + (if negated then ['^'] + Items(items, [']'] + k) else Items(items, [']'] + k))
    case Group(kind, body) => ['('] + Opening(kind, Print(body, [')'] + k))
    case Cat(a, b) => PrintIn(a, PrintIn(b, k))
    case Alt(a, b) => Print(a, ['|'] + Print(b, k))
    case Repeat(body, times, lazy) =>
      PrintUnit(body, Times(times, if lazy then ['?'] + k else k))
  }

  /** As an item of a sequence: alternatives need a group of their own. */
  function PrintIn(r: Regex, k: string): string
    decreases r, 1
  {
    if r.Alt? then ['('] + (['?'] + ([':'] + Print(r, [')'] + k))) else Print(r, k)
  }

  /** As the operand of a repetition: anything but a single unit needs a group. */
  function PrintUnit(r: Regex, k: string): string
    decreases r, 1
  {
    if IsUnit(r) then Print(r, k) else ['('] + (['?'] + ([':'] + Print(r, [')'] + k)))
  }

  // ---------------------------------------------------------------------------
  // Reading the text back
  // ---------------------------------------------------------------------------

  /** The following text cannot be taken for a repetition of what comes before it. */
  predicate Separate(k: string) {
    k == "" || k[0] !in {'*', '+', '?', '{'}
  }

  lemma {:induction false} DigitsRead(n: nat, k: string)
    ensures ReadDigits(Digits(n) + k, 0) == ReadDigits(k, n)
    ensures IsDigit(Digits(n)[0])
  {
    if n >= 10 {
      var d := ['0' + (n % 10) as char];
      DigitsRead(n / 10, d + k);
      assert Digits(n) + k == Digits(n / 10) + (d + k);
      assert (d + k)[1..] == k;
    } else {
      assert (Digits(n) + k)[1..] == k;
    }
  }

  function BoundsOf(q: Repetition): (Bound, Bound)
    requires q.Exactly? || q.AtLeast? || q.Between?
  {
    match q
    case Exactly(n) => (BoundOf(n), BoundOf(n))
    case AtLeast(n) => (BoundOf(n), Unbounded)
    case Between(lo, hi) => (BoundOf(lo), BoundOf(hi))
  }

  lemma BracesRead(q: Repetition, k: string)
    requires q.Exactly? || q.AtLeast? || q.Between?
    ensures MatchBraces(Times(q, k)) == Match(BoundsOf(q).0, BoundsOf(q).1, k)
  {
    var afterBrace := Times(q, k)[1..];
    match q {
      case Exactly(n) => assert afterBrace == Digits(n) + (['}'] + k); ExactlyReads(Times(q, k), n, k);
      case AtLeast(n) => assert afterBrace == Digits(n) + ([','] + (['}'] + k)); AtLeastReads(Times(q, k), n, k);
      case Between(lo, hi) =>
        assert afterBrace == Digits(lo) + ([','] + (Digits(hi) + (['}'] + k)));
        BetweenReads(Times(q, k), lo, hi, k);
    }
  }

  lemma ExactlyReads(s: string, n: nat, k: string)
    requires Starts(s, '{') && s[1..] == Digits(n) + (['}'] + k)
    ensures MatchBraces(s) == Match(BoundOf(n), BoundOf(n), k)
  {
    var close := ['}'] + k;
    DigitsRead(n, close);
    assert close[1..] == k && ReadDigits(close, n) == (n, close);
  }

  lemma AtLeastReads(s: string, n: nat, k: string)
    requires Starts(s, '{') && s[1..] == Digits(n) + ([','] + (['}'] + k))
    ensures MatchBraces(s) == Match(BoundOf(n), Unbounded, k)
  {
    var close := ['}'] + k;
    var comma := [','] + close;
    DigitsRead(n, comma);
    assert close[1..] == k && ReadDigits(close, 0) == (0, close);
    assert comma[1..] == close && ReadDigits(comma, n) == (n, comma);
  }

  lemma BetweenReads(s: string, lo: nat, hi: nat, k: string)
    requires Starts(s, '{') && s[1..] == Digits(lo) + ([','] + (Digits(hi) + (['}'] + k)))
    ensures MatchBraces(s) == Match(BoundOf(lo), BoundOf(hi), k)
  {
    var close := ['}'] + k;
    var comma := [','] + (Digits(hi) + close);
    DigitsRead(lo, comma);
    DigitsRead(hi, close);
    assert close[1..] == k && ReadDigits(close, hi) == (hi, close);
    assert comma[1..] == Digits(hi) + close && ReadDigits(comma, lo) == (lo, comma);
    assert close != Digits(hi) + close;
  }

  lemma OverflowIsLarge()
    ensures Overflow() > MAX_REPETITION
  {
    PowPositive(OVERFLOW_EXPONENT);
  }

  lemma RepetitionRead(q: Repetition, lazy: bool, k: string, inner: nat)
    requires Separate(k)
    ensures Finish(Times(q, if lazy then ['?'] + k else k), inner) ==
            if OversizedBound(q) then Failed else Height(inner + (if Repeats(q) then 1 else 0), k)
  {
    var after := if lazy then ['?'] + k else k;
    ModifierSkipped(lazy, k);
    if q.Star? || q.Plus? || q.Maybe? {
      assert Times(q, after)[1..] == after;
    } else {
      BracedRead(q, after);
    }
  }

  lemma ModifierSkipped(lazy: bool, k: string)
    requires Separate(k)
    ensures SkipModifier(if lazy then ['?'] + k else k) == k
  {
    assert (['?'] + k)[1..] == k;
  }

  lemma BracedRead(q: Repetition, after: string)
    requires q.Exactly? || q.AtLeast? || q.Between?
    ensures ConsumeQuantifier(Times(q, after)) == if OversizedBound(q) then TooLarge else Quantified(Repeats(q), SkipModifier(after))
  {
    assert Times(q, after)[0] == '{';
    BracesRead(q, after);
    OverflowIsLarge();
  }

  lemma NothingToFinish(k: string, inner: nat)
    requires Separate(k)
    ensures Finish(k, inner) == Height(inner, k)
  {}

  lemma {:induction false} NameSkipped(name: string, k: string)
    requires '>' !in name
    ensures AfterName(NameText(name, ['>'] + k)) == k
  {
    if name == "" {
      assert (['>'] + k)[1..] == k;
    } else {
      NameSkipped(name[1..], k);
      assert NameText(name, ['>'] + k)[1..] == NameText(name[1..], ['>'] + k);
    }
  }

  lemma OpeningSkipped(kind: GroupKind, k: string)
    requires kind.Named? ==> WellNamed(kind.name)
    requires kind.Capturing? ==> !Starts(k, '?')
    ensures AfterGroupPrefix(Opening(kind, k)) == k
  {
    var s := Opening(kind, k);
    match kind {
      case Capturing =>
      case Named(name) =>
        var text := NameText(name, ['>'] + k);
        assert s[1..] == ['<'] + text;
        assert (['<'] + text)[1..] == text && s[2..] == text;
        assert text[0] == name[0];
        NameSkipped(name, k);
      case Lookbehind => assert s[1..] == ['<'] + (['='] + k) && s[2..] == ['='] + k && s[3..] == k;
      case NegativeLookbehind => assert s[1..] == ['<'] + (['!'] + k) && s[2..] == ['!'] + k && s[3..] == k;
      case NonCapturing => assert s[1..] == [':'] + k && (s[1..])[1..] == k;
      case Lookahead => assert s[1..] == ['='] + k && (s[1..])[1..] == k;
      case NegativeLookahead => assert s[1..] == ['!'] + k && (s[1..])[1..] == k;
    }
  }

  lemma ClassCharRead(c: char, k: string)
    ensures ClassItems(ClassChar(c, k)) == ClassItems(k)
    ensures ClassChar(c, k) != "" && ClassChar(c, k)[0] != ']' && ClassChar(c, k)[0] != '^'
  {
    var s := ClassChar(c, k);
    if c in CLASS_METACHARACTERS {
      assert s[1..] == [c] + k && Rest([c] + k) == k;
    } else {
      assert s[1..] == k;
    }
  }

  lemma {:induction false} ItemsRead(items: seq<ClassItem>, k: string)
    ensures ClassItems(Items(items, k)) == ClassItems(k)
    ensures items != [] ==> Items(items, k) != "" && Items(items, k)[0] != ']' && Items(items, k)[0] != '^'
  {
    if items != [] {
      var more := Items(items[1..], k);
      ItemsRead(items[1..], k);
      match items[0] {
        case Single(c) => ClassCharRead(c, more);
        case Span(from, to) =>
          ClassCharRead(to, more);
          ClassCharRead(from, ['-'] + ClassChar(to, more));
          assert (['-'] + ClassChar(to, more))[1..] == ClassChar(to, more);
        case ClassEscape(c) =>
          assert Items(items, k)[1..] == [c] + more && Rest([c] + more) == more;
      }
    }
  }

  lemma ClassRead(negated: bool, items: seq<ClassItem>, k: string)
    requires items != []
    ensures ParseUnit(Print(Class(negated, items), k)) == Height(0, k)
  {
    var body := Items(items, [']'] + k);
    ItemsRead(items, [']'] + k);
    assert ([']'] + k)[1..] == k;
    assert (['^'] + body)[1..] == body;
    assert Print(Class(negated, items), k)[1..] == if negated then ['^'] + body else body;
  }

  /** What a tree prints never begins like a repetition, unless it prints nothing. */
  lemma {:induction false} PrintSeparate(r: Regex, k: string)
    requires Separate(k)
    ensures Separate(Print(r, k)) && Separate(PrintIn(r, k))
    decreases r, k
  {
    match r {
      case Cat(a, b) =>
        PrintSeparate(b, k);
        PrintSeparate(a, PrintIn(b, k));
      case Alt(a, b) =>
        PrintSeparate(a, ['|'] + Print(b, k));
      case Repeat(body, times, lazy) =>
        UnitStarts(body, Times(times, if lazy then ['?'] + k else k));
      case _ =>
    }
  }

  lemma UnitStarts(r: Regex, k: string)
    ensures PrintUnit(r, k) != "" && Separate(PrintUnit(r, k))
    ensures PrintUnit(r, k)[0] != ')' && PrintUnit(r, k)[0] != '|'
  {}

  /** A group reads as its body does. */
  lemma GroupRead(kind: GroupKind, body: Regex, k: string)
    requires kind.Named? ==> WellNamed(kind.name)
    requires ParseSequence(Print(body, [')'] + k), 0) ==
             if Oversized(body) then Failed else Height(StarHeight(body), [')'] + k)
    requires Separate(Print(body, [')'] + k))
    ensures ParseUnit(['('] + Opening(kind, Print(body, [')'] + k))) ==
            if Oversized(body) then Failed else Height(StarHeight(body), k)
  {
    var close := [')'] + k;
    var inside := Print(body, close);
    var text := Opening(kind, inside);
    OpeningSkipped(kind, inside);
    assert close[0] == ')' && close[1..] == k;
    assert (['('] + text)[0] == '(' && (['('] + text)[1..] == text;
  }

  /** A unit in a sequence, followed by nothing that repeats it. */
  lemma UnitStep(s: string, k: string, height: Parsed, h: nat)
    requires s != "" && s[0] != ')' && s[0] != '|' && Separate(k) && ParseUnit(s) == height
    requires height.Height? ==> height.rest == k
    ensures ParseSequence(s, h) == if height.Failed? then Failed else ParseSequence(k, Max(height.height, h))
  {
    NothingToFinish(k, if height.Height? then height.height else 0);
  }

  /** A repeated unit in a sequence. */
  lemma RepeatStep(s: string, height: Parsed, times: Repetition, lazy: bool, k: string, h: nat)
    requires s != "" && s[0] != ')' && s[0] != '|' && Separate(k) && ParseUnit(s) == height
    requires height.Height? ==> height.rest == Times(times, if lazy then ['?'] + k else k)
    ensures ParseSequence(s, h) == Repeated(height, times, k, h)
  {
    RepetitionRead(times, lazy, k, if height.Height? then height.height else 0);
  }

  /** The parse of `k` after a unit of that height, repeated. */
  function Repeated(height: Parsed, times: Repetition, k: string, h: nat): Parsed {
    if height.Failed? || OversizedBound(times) then Failed
    else ParseSequence(k, Max(height.height + (if Repeats(times) then 1 else 0), h))
  }

  function UnitParsed(r: Regex, k: string): Parsed {
    if Oversized(r) then Failed else Height(StarHeight(r), k)
  }

  lemma BarStep(rest: string, h: nat)
    ensures ParseSequence(['|'] + rest, h) == ParseSequence(rest, h)
  {
    assert (['|'] + rest)[1..] == rest;
  }

  /** The parser's state after a printed tree: its height is merged in, or the parse has failed. */
  lemma {:induction false} SequenceReads(r: Regex, k: string, h: nat)
    requires WellFormed(r) && Separate(k)
    ensures ParseSequence(Print(r, k), h) ==
            if Oversized(r) then Failed else ParseSequence(k, Max(StarHeight(r), h))
    decreases r, 2
  {
    match r {
      case Empty =>
      case Cat(_, _) => CatReads(r, k, h);
      case Alt(_, _) => AltReads(r, k, h);
      case Repeat(body, times, lazy) => RepeatReads(body, times, lazy, k, h, Times(times, if lazy then ['?'] + k else k));
      case _ => LoneUnitReads(r, k, h);
    }
  }

  lemma {:induction false} LoneUnitReads(r: Regex, k: string, h: nat)
    requires IsUnit(r) && WellFormed(r) && Separate(k)
    ensures ParseSequence(PrintUnit(r, k), h) ==
            if Oversized(r) then Failed else ParseSequence(k, Max(StarHeight(r), h))
    decreases r, 1
  {
    UnitReads(r, k);
    UnitStarts(r, k);
    UnitStep(PrintUnit(r, k), k, UnitParsed(r, k), h);
  }

  lemma {:induction false} CatReads(r: Regex, k: string, h: nat)
    requires r.Cat? && WellFormed(r) && Separate(k)
    ensures ParseSequence(Print(r, k), h) ==
            if Oversized(r) then Failed else ParseSequence(k, Max(StarHeight(r), h))
    decreases r, 1
  {
    PrintSeparate(r.second, k);
    InSequenceReads(r.first, PrintIn(r.second, k), h);
    InSequenceReads(r.second, k, Max(StarHeight(r.first), h));
  }

  lemma {:induction false} AltReads(r: Regex, k: string, h: nat)
    requires r.Alt? && WellFormed(r) && Separate(k)
    ensures ParseSequence(Print(r, k), h) ==
            if Oversized(r) then Failed else ParseSequence(k, Max(StarHeight(r), h))
    decreases r, 1
  {
    SequenceReads(r.left, ['|'] + Print(r.right, k), h);
    BarStep(Print(r.right, k), Max(StarHeight(r.left), h));
    SequenceReads(r.right, k, Max(StarHeight(r.left), h));
  }

  lemma {:induction false} RepeatReads(body: Regex, times: Repetition, lazy: bool, k: string, h: nat, after: string)
    requires WellFormed(body) && Separate(k) && after == Times(times, if lazy then ['?'] + k else k)
    ensures ParseSequence(PrintUnit(body, after), h) == Repeated(UnitParsed(body, after), times, k, h)
    decreases body, 5
  {
    UnitReads(body, after);
    UnitStarts(body, after);
    RepeatStep(PrintUnit(body, after), UnitParsed(body, after), times, lazy, k, h);
  }

  lemma {:induction false} InSequenceReads(r: Regex, k: string, h: nat)
    requires WellFormed(r) && Separate(k)
    ensures ParseSequence(PrintIn(r, k), h) ==
            if Oversized(r) then Failed else ParseSequence(k, Max(StarHeight(r), h))
    decreases r, 4
  {
    if r.Alt? {
      UnitReads(r, k);
      UnitStarts(r, k);
      assert PrintIn(r, k) == PrintUnit(r, k);
      UnitStep(PrintUnit(r, k), k, UnitParsed(r, k), h);
    } else {
      SequenceReads(r, k, h);
    }
  }

  lemma {:induction false} UnitReads(r: Regex, k: string)
    requires WellFormed(r)
    ensures PrintUnit(r, k) != ""
    ensures ParseUnit(PrintUnit(r, k)) == UnitParsed(r, k)
    decreases r, if IsUnit(r) then 0 else 3
  {
    var close := [')'] + k;
    if r.Group? {
      PrintSeparate(r.body, close);
      SequenceReads(r.body, close, 0);
      GroupRead(r.kind, r.body, k);
    } else if !IsUnit(r) {
      PrintSeparate(r, close);
      SequenceReads(r, close, 0);
      GroupRead(NonCapturing, r, k);
    } else if r.Class? {
      ClassRead(r.negated, r.items, k);
    } else {
      var s := Print(r, k);
      if s[0] == '\\' { assert s[1..] == [r.c] + k && Rest([r.c] + k) == k; } else { assert s[1..] == k; }
    }
  }

  /** Exactness: the parser consumes every printed tree and returns its star height, or fails,
      and it fails exactly when the tree is oversized. */
  lemma ParserExact(r: Regex)
    requires WellFormed(r)
    ensures MaxStarHeight(Print(r, "")) == if Oversized(r) then Failed else Height(StarHeight(r), "")
  {
    SequenceReads(r, "", 0);
  }

  /** So a printed pattern is let through exactly when no repetition nests and none is oversized. */
  lemma SafeExactly(r: Regex, compiles: bool)
    requires WellFormed(r)
    ensures IsSafePattern(Print(r, ""), compiles) <==> compiles && StarHeight(r) <= 1 && !Oversized(r)
  {
    ParserExact(r);
  }

  /** A parenthesis too many or one missing fails the parse, wherever the pattern goes on from there. */
  lemma UnbalancedFails(r: Regex, k: string)
    requires WellFormed(r)
    ensures MaxStarHeight(Print(r, [')'] + k)) == Failed
    ensures MaxStarHeight(['('] + Print(r, "")) == Failed
  {
    SequenceReads(r, [')'] + k, 0);
    SequenceReads(r, "", 0);
    PrintSeparate(r, "");
    var inside := Print(r, "");
    assert (['('] + inside)[0] == '(' && (['('] + inside)[1..] == inside;
    assert AfterGroupPrefix(inside) == inside;
    assert ParseSequence(inside, 0) == if Oversized(r) then Failed else Height(Max(StarHeight(r), 0), "");
    assert ParseUnit(['('] + inside) == Failed;
    assert ParseAtom(['('] + inside) == Failed;
  }

  /** A class that begins with a bracket goes on to the next one: `[]]` and `[^]]` are whole units. */
  lemma LeadingBracketIsLiteral(k: string)
    ensures ParseUnit(['['] + ([']'] + ([']'] + k))) == Height(0, k)
    ensures ParseUnit(['['] + (['^'] + ([']'] + ([']'] + k)))) == Height(0, k)
  {
    var close := [']'] + k;
    var two := [']'] + close;
    var negated := ['^'] + two;
    assert close[1..] == k && two[1..] == close && negated[1..] == two;
    assert ClassItems(close) == Closed(k);
    assert (['['] + two)[1..] == two && (['['] + negated)[1..] == negated;
  }

  /** The limit itself: of `a{n}` with a bound a double can hold, the first one refused is `a{26}`. */
  lemma TwentyFiveIsRead(n: nat)
    ensures MaxStarHeight(Print(Repeat(Literal('a'), Exactly(n), false), "")) ==
            if n > 25 then Failed else Height(if n > 1 then 1 else 0, "")
  {
    ParserExact(Repeat(Literal('a'), Exactly(n), false));
  }

  // ---------------------------------------------------------------------------
  // Bounds too large to read
  // ---------------------------------------------------------------------------

  /** Some finite bound exceeds the limit, read as a number and not as a double. */
  predicate SomeBoundExceeds(r: Regex) {
    match r
    case Group(_, body) => SomeBoundExceeds(body)
    case Cat(a, b) => SomeBoundExceeds(a) || SomeBoundExceeds(b)
    case Alt(a, b) => SomeBoundExceeds(a) || SomeBoundExceeds(b)
    case Repeat(body, times, _) =>
      SomeBoundExceeds(body) || HighestBound(times) > MAX_REPETITION
    case _ => false
  }

  function HighestBound(q: Repetition): nat {
    match q
    case Exactly(n) => n
    case AtLeast(n) => n
    case Between(lo, hi) => Max(lo, hi)
    case _ => 0
  }

  predicate BoundsReadable(r: Regex) {
    match r
    case Group(_, body) => BoundsReadable(body)
    case Cat(a, b) => BoundsReadable(a) && BoundsReadable(b)
    case Alt(a, b) => BoundsReadable(a) && BoundsReadable(b)
    case Repeat(body, times, _) => BoundsReadable(body) && HighestBound(times) < Overflow()
    case _ => true
  }

  lemma {:induction false} ReadableBoundsExactly(r: Regex)
    ensures Oversized(r) ==> SomeBoundExceeds(r)
    ensures BoundsReadable(r) ==> (Oversized(r) <==> SomeBoundExceeds(r))
  {
    match r {
      case Group(_, body) => ReadableBoundsExactly(body);
      case Cat(a, b) => ReadableBoundsExactly(a); ReadableBoundsExactly(b);
      case Alt(a, b) => ReadableBoundsExactly(a); ReadableBoundsExactly(b);
      case Repeat(body, _, _) => ReadableBoundsExactly(body);
      case _ =>
    }
  }

  /** Some repetition has an upper bound too large for a double. */
  predicate HasHugeUpper(r: Regex) {
    match r
    case Group(_, body) => HasHugeUpper(body)
    case Cat(a, b) => HasHugeUpper(a) || HasHugeUpper(b)
    case Alt(a, b) => HasHugeUpper(a) || HasHugeUpper(b)
    case Repeat(body, times, _) => HasHugeUpper(body) || (times.Between? && times.hi >= Overflow())
    case _ => false
  }

  lemma {:induction false} ExceedingExactly(r: Regex)
    ensures SomeBoundExceeds(r) <==> Oversized(r) || HasHugeUpper(r)
  {
    match r {
      case Group(_, body) => ExceedingExactly(body);
      case Cat(a, b) => ExceedingExactly(a); ExceedingExactly(b);
      case Alt(a, b) => ExceedingExactly(a); ExceedingExactly(b);
      case Repeat(body, _, _) =>
        ExceedingExactly(body);
        OverflowIsLarge();
      case _ =>
    }
  }

  /** The parser rejects for the limit as it should exactly on the trees that have no such upper bound,
      or have a bound it catches elsewhere. */
  lemma LimitExactly(r: Regex)
    requires WellFormed(r)
    ensures (MaxStarHeight(Print(r, "")) == Failed <==> SomeBoundExceeds(r)) <==> (Oversized(r) || !HasHugeUpper(r))
  {
    ParserExact(r);
    ExceedingExactly(r);
  }

  function TenTo(exponent: nat): nat {
    if exponent == 0 then 1 else 10 * TenTo(exponent - 1)
  }

  lemma {:induction false} TenGrows(exponent: nat)
    ensures TenTo(exponent) >= Pow2(3 * exponent)
  {
    if exponent > 0 {
      TenGrows(exponent - 1);
      assert Pow2(3 * exponent) == 8 * Pow2(3 * (exponent - 1)) by {
        assert Pow2(3 * exponent) == 2 * Pow2(3 * exponent - 1);
        assert Pow2(3 * exponent - 1) == 2 * Pow2(3 * exponent - 2);
      }
    }
  }

  lemma TenToThe(exponent: nat)
    requires exponent >= 342
    ensures TenTo(exponent) >= Overflow()
  {
    TenGrows(exponent);
    FarBeyond(OVERFLOW_EXPONENT, 3 * exponent);
  }

  lemma FarBeyond(low: nat, far: nat)
    requires far >= low + 56
    ensures Pow2(far) >= Pow2(low) * 0x3F_FFFF_FFFF_FFFF
  {
    var seven: nat := 7;
    PowGrows(low + 8 * seven, far);
    PowSum(low, 8 * seven);
    PowSeven(seven);
    Scaled(Pow2(low), Pow2(8 * seven));
  }

  lemma Scaled(p: nat, factor: nat)
    requires factor >= 0x3F_FFFF_FFFF_FFFF
    ensures p * factor >= p * 0x3F_FFFF_FFFF_FFFF
  {}

  lemma PowSeven(seven: nat)
    requires seven == 7
    ensures Pow2(8 * seven) == 0x100_0000_0000_0000
  {
    PowSum(4 * seven, 4 * seven);
    PowSum(2 * seven, 2 * seven);
    PowSum(seven, seven);
  }

  /** The limit has a gap: `a{1,10^342}` is not rejected, because its bound reads as Infinity. */
  lemma HugeBoundPasses(exponent: nat)
    requires exponent >= 342
    ensures var r := Repeat(Literal('a'), Between(1, TenTo(exponent)), false);
            SomeBoundExceeds(r) && MaxStarHeight(Print(r, "")) == Height(1, "")
  {
    var r := Repeat(Literal('a'), Between(1, TenTo(exponent)), false);
    TenToThe(exponent);
    OverflowIsLarge();
    ParserExact(r);
  }
}
