/** Worksheet and ZIP entry names that never clash, whatever names are already taken. */
module UniqueNames {
  import opened Prelude
  import opened JsText
  import opened Numerals
  import opened Sequences

  /** Lower-casing, compared by which names clash. */
  type Lower = string -> string

  /** Digits, spaces, parentheses and hyphens have no case and end every case context. */
  predicate Caseless(s: string) {
    s != "" && forall c :: c in s ==> '0' <= c <= '9' || c == ' ' || c == '(' || c == ')' || c == '-'
  }

  ghost predicate LowersAround(lower: Lower) {
    lower("") == "" && forall a, s, b :: Caseless(s) ==> lower(a + s + b) == lower(a) + s + lower(b)
  }

  // ---------------------------------------------------------------------------
  // The first free candidate
  // ---------------------------------------------------------------------------

  /** No two numbers give clashing candidates. */
  ghost predicate Spread(lower: Lower, numbered: nat -> string) {
    forall m, n :: lower(numbered(m)) == lower(numbered(n)) ==> m == n
  }

  ghost function Tried(lower: Lower, numbered: nat -> string, n: nat): (s: set<string>) {
    if n <= 2 then {} else Tried(lower, numbered, n - 1) + {lower(numbered(n - 1))}
  }

  /** Pigeonhole: so many different candidates cannot all be taken. */
  lemma {:induction false} TriedCount(lower: Lower, numbered: nat -> string, n: nat)
    requires Spread(lower, numbered) && n >= 2
    ensures |Tried(lower, numbered, n)| == n - 2
    ensures forall k :: k >= n ==> lower(numbered(k)) !in Tried(lower, numbered, n)
  {
    if n > 2 { TriedCount(lower, numbered, n - 1); }
  }

  lemma SomeIsFree(lower: Lower, numbered: nat -> string, used: set<string>, n: nat)
    requires Spread(lower, numbered) && n >= 2 && Tried(lower, numbered, n) <= used
    ensures n - 2 <= |used|
  {
    TriedCount(lower, numbered, n);
    SubsetCount(Tried(lower, numbered, n), used);
  }

  class Names {
    var taken: set<string>

    constructor ()
      ensures taken == {}
    {
      taken := {};
    }
  }

  /** `candidate` is `first` or, when that clashes, the numbered candidate with the least number
      that does not. */
  ghost predicate FirstFree(lower: Lower, used: set<string>, first: string, numbered: nat -> string, candidate: string) {
    if lower(first) !in used then candidate == first
    else exists n :: IsLeast(lower, used, numbered, n) && candidate == numbered(n)
  }

  ghost predicate IsLeast(lower: Lower, used: set<string>, numbered: nat -> string, n: nat) {
    2 <= n <= |used| + 2 && lower(numbered(n)) !in used && Tried(lower, numbered, n) <= used
  }

  /** The retry loop: it ends, because the candidates never repeat. */
  method TakeFree(lower: Lower, names: Names, first: string, numbered: nat -> string) returns (candidate: string)
    requires Spread(lower, numbered)
    modifies names
    ensures FirstFree(lower, old(names.taken), first, numbered, candidate)
    ensures lower(candidate) !in old(names.taken)
    ensures names.taken == old(names.taken) + {lower(candidate)}
  {
    candidate := first;
    var n := 2;
    while lower(candidate) in names.taken
      invariant n >= 2 && (if n == 2 then candidate == first else lower(first) in names.taken && candidate == numbered(n - 1))
      invariant Tried(lower, numbered, if n == 2 then 2 else n - 1) <= names.taken == old(names.taken)
      decreases |names.taken| + 3 - n
    {
      SomeIsFree(lower, numbered, names.taken, n);
      candidate := numbered(n);
      n := n + 1;
    }
    if n > 2 {
      SomeIsFree(lower, numbered, names.taken, n - 1);
      assert IsLeast(lower, names.taken, numbered, n - 1);
    }
    names.taken := names.taken + {lower(candidate)};
  }

  // ---------------------------------------------------------------------------
  // Worksheet names
  // ---------------------------------------------------------------------------

  const SHEET_NAME_MAX := 31

  /** The first `max` characters; a negative bound counts from the end. */
  function Truncate(text: string, max: int): string {
    if max >= |text| then text else if max >= 0 then text[..max] else text[..Max(0, |text| + max)]
  }

  predicate Forbidden(c: char) {
    c <= '\U{1f}' || c == '[' || c == ']' || c == ':' || c == '*' || c == '?' || c == '/' || c == '\\'
  }

  function Blanked(s: string): string {
    if s == "" then "" else [if Forbidden(s[0]) then ' ' else s[0]] + Blanked(s[1..])
  }

  /** Each run of white space becomes one space. */
  function Squeezed(s: string, inSpace: bool): string {
    if s == "" then ""
    else if IsSpace(s[0]) then (if inSpace then "" else " ") + Squeezed(s[1..], true)
    else s[..1] + Squeezed(s[1..], false)
  }

  function Unquoted(s: string): string {
    UnquotedEnd(UnquotedStart(s))
  }

  function UnquotedStart(s: string): string {
    if s != "" && s[0] == '\'' then UnquotedStart(s[1..]) else s
  }

  function UnquotedEnd(s: string): string {
    if s != "" && s[|s| - 1] == '\'' then UnquotedEnd(s[..|s| - 1]) else s
  }

  function Cleaned(name: string): string {
    Trim(Unquoted(Trim(Squeezed(Blanked(name), false))))
  }

  /** Nothing is left of the name, or the one name that is reserved. */
  predicate Unusable(lower: Lower, name: string) {
    Cleaned(name) == "" || lower(Cleaned(name)) == "history"
  }

  function SheetBase(lower: Lower, name: string, fallback: string): string {
    Trim(Truncate(if Unusable(lower, name) then fallback else Cleaned(name), SHEET_NAME_MAX))
  }

  function SheetSuffix(n: nat): string {
    " (" + Digits(n) + ")"
  }

  function NumberedSheet(base: string, n: nat): string {
    var suffix := SheetSuffix(n);
    Trim(Truncate(base, SHEET_NAME_MAX - |suffix|)) + suffix
  }

  function SheetCandidates(base: string): nat -> string {
    (n: nat) => NumberedSheet(base, n)
  }

  lemma SuffixCaseless(n: nat)
    ensures Caseless(SheetSuffix(n))
  {
    DigitsOnly(n);
  }

  lemma SuffixesEnd(a: string, b: string, m: nat, n: nat)
    requires a + SheetSuffix(m) == b + SheetSuffix(n)
    ensures m == n
  {
    var s := a + SheetSuffix(m);
    DigitsOnly(m);
    DigitsOnly(n);
    var x, y := |a| + 1, |b| + 1;
    assert s[x] == '(' && s[y] == '(';
    forall k | x < k < |s| - 1 ensures s[k] != '(' { assert s[k] == Digits(m)[k - x - 1] && s[k] in Digits(m); }
    forall k | y < k < |s| - 1 ensures s[k] != '(' { assert s[k] == Digits(n)[k - y - 1] && s[k] in Digits(n); }
    assert x == y;
    assert s[x + 1..|s| - 1] == Digits(m) && s[y + 1..|s| - 1] == Digits(n);
    DigitsDiffer(m, n);
  }

  lemma SheetsSpread(lower: Lower, base: string)
    requires LowersAround(lower)
    ensures Spread(lower, SheetCandidates(base))
  {
    forall m: nat, n: nat | lower(NumberedSheet(base, m)) == lower(NumberedSheet(base, n)) ensures m == n {
      SheetLowers(lower, base, m);
      SheetLowers(lower, base, n);
      SuffixesEnd(lower(Trim(Truncate(base, SHEET_NAME_MAX - |SheetSuffix(m)|))),
                  lower(Trim(Truncate(base, SHEET_NAME_MAX - |SheetSuffix(n)|))), m, n);
    }
  }

  lemma SheetLowers(lower: Lower, base: string, n: nat)
    requires LowersAround(lower)
    ensures lower(NumberedSheet(base, n)) == lower(Trim(Truncate(base, SHEET_NAME_MAX - |SheetSuffix(n)|))) + SheetSuffix(n)
  {
    var head, suffix := Trim(Truncate(base, SHEET_NAME_MAX - |SheetSuffix(n)|)), SheetSuffix(n);
    SuffixCaseless(n);
    assert head + suffix + "" == head + suffix && lower(head) + suffix + "" == lower(head) + suffix;
  }

  lemma {:induction false} TrimShortens(s: string)
    ensures |Trim(s)| <= |s|
  {
    TrimStartShortens(s);
    TrimEndShortens(TrimStart(s));
  }

  lemma {:induction false} TrimStartShortens(s: string)
    ensures |TrimStart(s)| <= |s|
  {
    if s != "" && IsSpace(s[0]) { TrimStartShortens(s[1..]); }
  }

  lemma {:induction false} TrimEndShortens(s: string)
    ensures |TrimEnd(s)| <= |s|
  {
    if s != "" && IsSpace(s[|s| - 1]) { TrimEndShortens(s[..|s| - 1]); }
  }

  lemma NumberedSheetLength(base: string, n: nat)
    requires |Digits(n)| <= 28
    ensures |NumberedSheet(base, n)| <= SHEET_NAME_MAX
  {
    TrimShortens(Truncate(base, SHEET_NAME_MAX - |SheetSuffix(n)|));
  }

  /** New up to case, the least candidate that is, and at most 31 characters while the set has
      fewer than 28 digits' worth of names. */
  method UniqueSheetName(lower: Lower, name: string, names: Names, fallback: string) returns (candidate: string)
    requires LowersAround(lower)
    modifies names
    ensures var base := SheetBase(lower, name, fallback);
            FirstFree(lower, old(names.taken), base, SheetCandidates(base), candidate)
    ensures lower(candidate) !in old(names.taken) && names.taken == old(names.taken) + {lower(candidate)}
    ensures |Digits(|old(names.taken)| + 2)| <= 28 ==> |candidate| <= 31
  {
    var base := SheetBase(lower, name, fallback);
    SheetsSpread(lower, base);
    candidate := TakeFree(lower, names, base, SheetCandidates(base));
    SheetFits(lower, old(names.taken), name, fallback, candidate);
  }

  lemma SheetFits(lower: Lower, used: set<string>, name: string, fallback: string, candidate: string)
    requires var base := SheetBase(lower, name, fallback); FirstFree(lower, used, base, SheetCandidates(base), candidate)
    ensures |Digits(|used| + 2)| <= 28 ==> |candidate| <= 31
  {
    var base := SheetBase(lower, name, fallback);
    if lower(base) !in used {
      TrimShortens(Truncate(if Unusable(lower, name) then fallback else Cleaned(name), SHEET_NAME_MAX));
    } else if |Digits(|used| + 2)| <= 28 {
      var n :| IsLeast(lower, used, SheetCandidates(base), n) && candidate == SheetCandidates(base)(n);
      DigitsGrow(n, |used| + 2);
      NumberedSheetLength(base, n);
    }
  }

  // ---------------------------------------------------------------------------
  // ZIP entry names
  // ---------------------------------------------------------------------------

  function NumberedFile(base: string, suffix: string, n: nat): string {
    base + ("-" + Digits(n)) + suffix
  }

  function FileCandidates(base: string, suffix: string): nat -> string {
    (n: nat) => NumberedFile(base, suffix, n)
  }

  lemma FilesSpread(lower: Lower, base: string, suffix: string)
    requires LowersAround(lower)
    ensures Spread(lower, FileCandidates(base, suffix))
  {
    forall m: nat, n: nat | lower(NumberedFile(base, suffix, m)) == lower(NumberedFile(base, suffix, n)) ensures m == n {
      DigitsOnly(m);
      DigitsOnly(n);
      assert Caseless("-" + Digits(m)) && Caseless("-" + Digits(n));
      MiddlesAgree(lower(base), "-" + Digits(m), "-" + Digits(n), lower(suffix));
      assert ("-" + Digits(m))[1..] == Digits(m) && ("-" + Digits(n))[1..] == Digits(n);
      DigitsDiffer(m, n);
    }
  }

  lemma MiddlesAgree(a: string, x: string, y: string, b: string)
    requires a + x + b == a + y + b
    ensures x == y
  {
    assert |x| == |y|;
    assert (a + x + b)[|a|..|a| + |x|] == x && (a + y + b)[|a|..|a| + |y|] == y;
  }

  /** `slug` is the ASCII slug of a name. */
  method UniqueFileName(lower: Lower, slug: string -> string, name: string, suffix: string, names: Names, fallback: string)
    returns (candidate: string)
    requires LowersAround(lower)
    modifies names
    ensures var base := if slug(name) == "" then fallback else slug(name);
            FirstFree(lower, old(names.taken), base + suffix, FileCandidates(base, suffix), candidate)
    ensures lower(candidate) !in old(names.taken) && names.taken == old(names.taken) + {lower(candidate)}
  {
    var base := if slug(name) == "" then fallback else slug(name);
    FilesSpread(lower, base, suffix);
    candidate := TakeFree(lower, names, base + suffix, FileCandidates(base, suffix));
  }

  // ---------------------------------------------------------------------------
  // Whole runs on one set
  // ---------------------------------------------------------------------------

  datatype Request = Sheet(name: string, fallback: string) | File(name: string, suffix: string, fallback: string)

  function LowerAll(lower: Lower, names: seq<string>): seq<string> {
    seq(|names|, i requires 0 <= i < |names| => lower(names[i]))
  }

  /** `taken` is `before` and the keys given out since, which are all different and were all free. */
  ghost predicate Given(before: set<string>, taken: set<string>, keys: seq<string>) {
    && Distinct(keys) && (forall k :: k in keys ==> k !in before)
    && taken == before + (set k | k in keys)
  }

  lemma GivesOneMore(before: set<string>, taken: set<string>, keys: seq<string>, key: string)
    requires Given(before, taken, keys) && key !in taken
    ensures Given(before, taken + {key}, keys + [key])
  {
    assert forall k :: k in keys + [key] <==> k in keys || k == key;
  }

  method NameOne(lower: Lower, slug: string -> string, request: Request, names: Names) returns (name: string)
    requires LowersAround(lower)
    modifies names
    ensures lower(name) !in old(names.taken) && names.taken == old(names.taken) + {lower(name)}
  {
    match request {
      case Sheet(wanted, fallback) => name := UniqueSheetName(lower, wanted, names, fallback);
      case File(wanted, suffix, fallback) => name := UniqueFileName(lower, slug, wanted, suffix, names, fallback);
    }
  }

  lemma LowerSnoc(lower: Lower, given: seq<string>, next: string)
    ensures LowerAll(lower, given + [next]) == LowerAll(lower, given) + [lower(next)]
  {}

  /** All the names given out are different up to case, and different from those already taken. */
  method NameAll(lower: Lower, slug: string -> string, requests: seq<Request>, names: Names) returns (given: seq<string>)
    requires LowersAround(lower)
    modifies names
    ensures |given| == |requests| && Given(old(names.taken), names.taken, LowerAll(lower, given))
  {
    given := [];
    for i := 0 to |requests|
      invariant |given| == i && Given(old(names.taken), names.taken, LowerAll(lower, given))
    {
      ghost var taken := names.taken;
      var next := NameOne(lower, slug, requests[i], names);
      GivesOneMore(old(names.taken), taken, LowerAll(lower, given), lower(next));
      LowerSnoc(lower, given, next);
      given := given + [next];
    }
  }
}
