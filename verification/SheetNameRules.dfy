/** Which of the rules for worksheet names the names given out keep, and exactly when they do not. */
module SheetNameRules {
  import opened JsText
  import opened Numerals
  import opened UniqueNames

  // ---------------------------------------------------------------------------
  // Forbidden characters
  // ---------------------------------------------------------------------------

  predicate Allowed(s: string) {
    forall c :: c in s ==> !Forbidden(c)
  }

  lemma AllowedMeans(s: string)
    ensures Allowed(s) <==> forall c :: c in s ==> c > '\U{1f}' && c !in {'[', ']', ':', '*', '?', '/', '\\'}
  {}

  lemma {:induction false} BlankedAllowed(s: string)
    ensures Allowed(Blanked(s))
  {
    if s != "" { BlankedAllowed(s[1..]); }
  }

  lemma {:induction false} SqueezedAllowed(s: string, inSpace: bool)
    requires Allowed(s)
    ensures Allowed(Squeezed(s, inSpace))
  {
    if s != "" {
      assert s[0] in s && forall c :: c in s[1..] ==> c in s;
      SqueezedAllowed(s[1..], true);
      SqueezedAllowed(s[1..], false);
    }
  }

  lemma {:induction false} TrimAllowed(s: string)
    requires Allowed(s)
    ensures Allowed(TrimStart(s)) && Allowed(TrimEnd(s)) && Allowed(UnquotedStart(s)) && Allowed(UnquotedEnd(s))
    decreases |s|
  {
    if s != "" {
      assert forall c :: c in s[1..] || c in s[..|s| - 1] ==> c in s;
      TrimAllowed(s[1..]);
      TrimAllowed(s[..|s| - 1]);
    }
  }

  lemma TrimmedAllowed(s: string)
    requires Allowed(s)
    ensures Allowed(Trim(s)) && Allowed(Unquoted(s))
  {
    TrimAllowed(s);
    TrimAllowed(TrimStart(s));
    TrimAllowed(UnquotedStart(s));
  }

  lemma CleanedAllowed(name: string)
    ensures Allowed(Cleaned(name))
  {
    BlankedAllowed(name);
    SqueezedAllowed(Blanked(name), false);
    TrimmedAllowed(Squeezed(Blanked(name), false));
    TrimmedAllowed(Trim(Squeezed(Blanked(name), false)));
    TrimmedAllowed(Unquoted(Trim(Squeezed(Blanked(name), false))));
  }

  lemma BaseAllowed(lower: Lower, name: string, fallback: string)
    requires Unusable(lower, name) ==> Allowed(fallback)
    ensures Allowed(SheetBase(lower, name, fallback))
  {
    CleanedAllowed(name);
    TrimmedAllowed(Truncate(if Unusable(lower, name) then fallback else Cleaned(name), SHEET_NAME_MAX));
  }

  lemma NumberedAllowed(base: string, n: nat)
    requires Allowed(base)
    ensures Allowed(NumberedSheet(base, n))
  {
    TrimmedAllowed(Truncate(base, SHEET_NAME_MAX - |SheetSuffix(n)|));
    SuffixCaseless(n);
  }

  /** No candidate has a character that worksheet names forbid, if a fallback it needs has none. */
  lemma CandidatesAllowed(lower: Lower, used: set<string>, name: string, fallback: string, candidate: string)
    requires Unusable(lower, name) ==> Allowed(fallback)
    requires var base := SheetBase(lower, name, fallback); FirstFree(lower, used, base, SheetCandidates(base), candidate)
    ensures Allowed(candidate)
  {
    var base := SheetBase(lower, name, fallback);
    BaseAllowed(lower, name, fallback);
    if lower(base) in used {
      var n :| IsLeast(lower, used, SheetCandidates(base), n) && candidate == SheetCandidates(base)(n);
      NumberedAllowed(base, n);
    }
  }

  // ---------------------------------------------------------------------------
  // Trimming and truncating cleaned names
  // ---------------------------------------------------------------------------

  /** No two white-space characters in a row. */
  predicate Single(s: string) {
    forall i :: 0 <= i < |s| - 1 ==> !(IsSpace(s[i]) && IsSpace(s[i + 1]))
  }

  predicate Trimmed(s: string) {
    s != "" ==> !IsSpace(s[0]) && !IsSpace(s[|s| - 1])
  }

  lemma {:induction false} TrimStartIs(s: string)
    ensures TrimStart(s) != "" ==> !IsSpace(TrimStart(s)[0]) && TrimStart(s)[|TrimStart(s)| - 1] == s[|s| - 1]
  {
    if s != "" && IsSpace(s[0]) { TrimStartIs(s[1..]); }
  }

  lemma {:induction false} TrimEndIs(s: string)
    ensures TrimEnd(s) != "" ==> !IsSpace(TrimEnd(s)[|TrimEnd(s)| - 1]) && s != "" && TrimEnd(s)[0] == s[0]
  {
    if s != "" && IsSpace(s[|s| - 1]) { TrimEndIs(s[..|s| - 1]); }
  }

  lemma TrimIs(s: string)
    ensures Trimmed(Trim(s))
  {
    TrimStartIs(s);
    TrimEndIs(TrimStart(s));
  }

  lemma TrimOfTrimmed(s: string)
    requires Trimmed(s)
    ensures Trim(s) == s
  {}

  /** Without runs of white space, trimming takes at most one character from each end. */
  lemma TrimOfSingle(s: string)
    requires Single(s) && s != ""
    ensures TrimStart(s) == if IsSpace(s[0]) then s[1..] else s
    ensures TrimEnd(s) == if IsSpace(s[|s| - 1]) then s[..|s| - 1] else s
  {
    if |s| > 1 {
      assert !(IsSpace(s[0]) && IsSpace(s[0 + 1])) && !(IsSpace(s[|s| - 2]) && IsSpace(s[|s| - 2 + 1]));
    }
  }

  lemma {:induction false} SqueezedSingle(s: string, inSpace: bool)
    ensures Single(Squeezed(s, inSpace))
    ensures inSpace && Squeezed(s, inSpace) != "" ==> !IsSpace(Squeezed(s, inSpace)[0])
  {
    if s != "" {
      SqueezedSingle(s[1..], true);
      SqueezedSingle(s[1..], false);
      var rest := Squeezed(s[1..], IsSpace(s[0]));
      if IsSpace(s[0]) {
        assert Squeezed(s, inSpace) == (if inSpace then "" else " ") + rest;
        assert "" + rest == rest;
      }
    }
  }

  lemma {:induction false} SingleParts(s: string)
    requires Single(s)
    ensures Single(TrimStart(s)) && Single(TrimEnd(s)) && Single(UnquotedStart(s)) && Single(UnquotedEnd(s))
    decreases |s|
  {
    if s != "" {
      SingleParts(s[1..]);
      SingleParts(s[..|s| - 1]);
    }
  }

  lemma SingleTrim(s: string)
    requires Single(s)
    ensures Single(Trim(s)) && Single(Unquoted(s))
  {
    SingleParts(s);
    SingleParts(TrimStart(s));
    SingleParts(UnquotedStart(s));
  }

  /** The name without its outer apostrophes, before the last trim. */
  function Core(name: string): string {
    Unquoted(Trim(Squeezed(Blanked(name), false)))
  }

  lemma CleanedShape(name: string)
    ensures Single(Core(name)) && Single(Cleaned(name)) && Trimmed(Cleaned(name)) && Cleaned(name) == Trim(Core(name))
  {
    SqueezedSingle(Blanked(name), false);
    SingleTrim(Squeezed(Blanked(name), false));
    SingleTrim(Trim(Squeezed(Blanked(name), false)));
    SingleTrim(Core(name));
    TrimIs(Core(name));
  }

  // ---------------------------------------------------------------------------
  // Apostrophes at either end
  // ---------------------------------------------------------------------------

  predicate StartsQuoted(s: string) {
    s != "" && s[0] == '\''
  }

  predicate EndsQuoted(s: string) {
    s != "" && s[|s| - 1] == '\''
  }

  lemma {:induction false} UnquotedStartIs(s: string)
    ensures !StartsQuoted(UnquotedStart(s))
  {
    if StartsQuoted(s) { UnquotedStartIs(s[1..]); }
  }

  lemma {:induction false} UnquotedEndIs(s: string)
    ensures !EndsQuoted(UnquotedEnd(s))
    ensures UnquotedEnd(s) != "" ==> s != "" && UnquotedEnd(s)[0] == s[0]
  {
    if EndsQuoted(s) { UnquotedEndIs(s[..|s| - 1]); }
  }

  lemma CoreUnquoted(name: string)
    ensures !StartsQuoted(Core(name)) && !EndsQuoted(Core(name))
  {
    var s := Trim(Squeezed(Blanked(name), false));
    UnquotedStartIs(s);
    UnquotedEndIs(UnquotedStart(s));
  }

  /** A cleaned name begins or ends with an apostrophe exactly when the last trim uncovers one. */
  lemma CleanedQuotesExactly(name: string)
    ensures var core := Core(name);
            && (StartsQuoted(Cleaned(name)) <==> |core| >= 2 && IsSpace(core[0]) && core[1] == '\'')
            && (EndsQuoted(Cleaned(name)) <==> |core| >= 2 && IsSpace(core[|core| - 1]) && core[|core| - 2] == '\'')
  {
    var core := Core(name);
    CleanedShape(name);
    CoreUnquoted(name);
    if core != "" {
      TrimOfSingle(core);
      SingleParts(core);
      if TrimStart(core) != "" { TrimOfSingle(TrimStart(core)); }
    }
  }

  /** The cut falls behind an apostrophe, or behind an apostrophe and a space. */
  predicate QuotedAtCut(cleaned: string)
    requires |cleaned| > SHEET_NAME_MAX
  {
    cleaned[SHEET_NAME_MAX - 1] == '\'' || (IsSpace(cleaned[SHEET_NAME_MAX - 1]) && cleaned[SHEET_NAME_MAX - 2] == '\'')
  }

  /** Cutting a cleaned name at 31 characters can end it with an apostrophe from its inside. */
  lemma CutExactly(cleaned: string)
    requires Single(cleaned) && Trimmed(cleaned) && cleaned != ""
    ensures var base := Trim(Truncate(cleaned, SHEET_NAME_MAX));
            && base != "" && base[0] == cleaned[0]
            && (|cleaned| <= SHEET_NAME_MAX ==> base == cleaned)
            && (|cleaned| > SHEET_NAME_MAX ==> |base| >= SHEET_NAME_MAX - 1)
            && (|cleaned| > SHEET_NAME_MAX ==> (EndsQuoted(base) <==> QuotedAtCut(cleaned)))
  {
    if |cleaned| <= SHEET_NAME_MAX {
      TrimOfTrimmed(cleaned);
    } else {
      var cut := cleaned[..SHEET_NAME_MAX];
      assert Single(cut) && cut[0] == cleaned[0] && cut[30] == cleaned[30] && cut[29] == cleaned[29];
      assert TrimStart(cut) == cut;
      TrimOfSingle(cut);
    }
  }

  lemma NumberedQuotes(base: string, n: nat)
    requires Trimmed(base)
    ensures !EndsQuoted(NumberedSheet(base, n))
    ensures StartsQuoted(NumberedSheet(base, n)) <==>
            StartsQuoted(base) && Truncate(base, SHEET_NAME_MAX - |SheetSuffix(n)|) != ""
  {
    var head, suffix := Truncate(base, SHEET_NAME_MAX - |SheetSuffix(n)|), SheetSuffix(n);
    assert suffix[0] == ' ' && suffix[|suffix| - 1] == ')';
    assert (Trim(head) + suffix)[|Trim(head) + suffix| - 1] == ')';
    if head != "" {
      assert head[0] == base[0] && TrimStart(head) == head;
      FirstStays(head);
    }
  }

  lemma {:induction false} FirstStays(s: string)
    requires s != "" && !IsSpace(s[0])
    ensures TrimEnd(s) != "" && TrimEnd(s)[0] == s[0]
  {
    if IsSpace(s[|s| - 1]) { FirstStays(s[..|s| - 1]); }
  }

  /** For example, the first trim of `' 'a` leaves its apostrophes apart, and the last uncovers one. */
  lemma ApostropheReturns()
    ensures Cleaned("' 'a") == "'a"
  {
    var s := "' 'a";
    assert s[1..] == " 'a" && s[1..][1..] == "'a" && s[1..][1..][1..] == "a" && s[1..][1..][1..][1..] == "";
    assert Blanked(s) == s;
    assert Squeezed(s, false) == s;
    assert Trim(s) == s;
    assert Unquoted(s) == " 'a";
    assert TrimStart(" 'a") == "'a" && TrimEnd("'a") == "'a";
  }

  /** The number added to a name leaves something of its base. */
  ghost predicate LeavesBase(lower: Lower, used: set<string>, base: string, candidate: string) {
    lower(base) !in used
    || exists n :: IsLeast(lower, used, SheetCandidates(base), n) && candidate == SheetCandidates(base)(n)
                   && Truncate(base, SHEET_NAME_MAX - |SheetSuffix(n)|) != ""
  }

  /** When the name given out begins or ends with an apostrophe: only as its base does, at the end
      only if it got no number, at the start only if the number left any of the base. */
  lemma QuotesExactly(lower: Lower, used: set<string>, name: string, fallback: string, candidate: string)
    requires var base := SheetBase(lower, name, fallback); FirstFree(lower, used, base, SheetCandidates(base), candidate)
    ensures var base := SheetBase(lower, name, fallback);
            && (EndsQuoted(candidate) <==> EndsQuoted(base) && lower(base) !in used)
            && (StartsQuoted(candidate) <==> StartsQuoted(base) && LeavesBase(lower, used, base, candidate))
  {
    var base := SheetBase(lower, name, fallback);
    TrimIs(Truncate(if Unusable(lower, name) then fallback else Cleaned(name), SHEET_NAME_MAX));
    if lower(base) in used {
      forall n | candidate == SheetCandidates(base)(n)
        ensures !EndsQuoted(candidate)
        ensures StartsQuoted(candidate) <==> StartsQuoted(base) && Truncate(base, SHEET_NAME_MAX - |SheetSuffix(n)|) != ""
      {
        NumberedQuotes(base, n);
      }
      var n :| IsLeast(lower, used, SheetCandidates(base), n) && candidate == SheetCandidates(base)(n);
    }
  }

  /** And the base does exactly as the cleaned name, its cut or the fallback says. */
  lemma BaseQuotesExactly(lower: Lower, name: string, fallback: string)
    ensures var base, cleaned := SheetBase(lower, name, fallback), Cleaned(name);
            if Unusable(lower, name) then base == Trim(Truncate(fallback, SHEET_NAME_MAX))
            else
              && (StartsQuoted(base) <==> StartsQuoted(cleaned))
              && (EndsQuoted(base) <==>
                    if |cleaned| <= SHEET_NAME_MAX then EndsQuoted(cleaned)
                    else QuotedAtCut(cleaned))
  {
    CleanedShape(name);
    if !Unusable(lower, name) { CutExactly(Cleaned(name)); }
  }

  // ---------------------------------------------------------------------------
  // The empty name and the reserved one
  // ---------------------------------------------------------------------------

  /** No name is empty, unless the fallback is used and nothing is left of it. */
  lemma EmptyExactly(lower: Lower, used: set<string>, name: string, fallback: string, candidate: string)
    requires var base := SheetBase(lower, name, fallback); FirstFree(lower, used, base, SheetCandidates(base), candidate)
    ensures candidate == "" <==>
            Unusable(lower, name) && Trim(Truncate(fallback, SHEET_NAME_MAX)) == "" && lower("") !in used
  {
    CleanedShape(name);
    if !Unusable(lower, name) { CutExactly(Cleaned(name)); }
  }

  /** Lower-casing never makes a text shorter. */
  ghost predicate NeverShortens(lower: Lower) {
    forall s :: |lower(s)| >= |s|
  }

  lemma NumberedIsNotReserved(lower: Lower, base: string, n: nat)
    requires LowersAround(lower)
    ensures lower(NumberedSheet(base, n)) != "history"
  {
    SheetLowers(lower, base, n);
    var s := lower(NumberedSheet(base, n));
    assert SheetSuffix(n)[|SheetSuffix(n)| - 1] == ')' && s[|s| - 1] == ')' && "history"[6] == 'y';
  }

  /** No name is the reserved "History", unless the fallback is used and is that. */
  lemma ReservedExactly(lower: Lower, used: set<string>, name: string, fallback: string, candidate: string)
    requires LowersAround(lower) && NeverShortens(lower)
    requires var base := SheetBase(lower, name, fallback); FirstFree(lower, used, base, SheetCandidates(base), candidate)
    ensures lower(candidate) == "history" <==>
            && Unusable(lower, name) && lower(Trim(Truncate(fallback, SHEET_NAME_MAX))) == "history"
            && "history" !in used
  {
    var base := SheetBase(lower, name, fallback);
    CleanedShape(name);
    if !Unusable(lower, name) {
      CutExactly(Cleaned(name));
      assert |lower(base)| >= |base| && |"history"| == 7;
    }
    if lower(base) in used {
      var n :| IsLeast(lower, used, SheetCandidates(base), n) && candidate == SheetCandidates(base)(n);
      NumberedIsNotReserved(lower, base, n);
    }
  }

  // ---------------------------------------------------------------------------
  // What a name keeps
  // ---------------------------------------------------------------------------

  /** The characters cleaning is not about: no white space, nothing forbidden, no apostrophe. */
  function Words(s: string): string {
    if s == "" then ""
    else (if IsSpace(s[0]) || Forbidden(s[0]) || s[0] == '\'' then "" else [s[0]]) + Words(s[1..])
  }

  lemma {:induction false} WordsConcat(a: string, b: string)
    ensures Words(a + b) == Words(a) + Words(b)
  {
    if a == "" {
      assert a + b == b;
    } else {
      assert (a + b)[1..] == a[1..] + b;
      WordsConcat(a[1..], b);
    }
  }

  lemma WordsFirst(s: string, first: string, rest: string)
    requires s != "" && first == s[..1] && rest == s[1..]
    ensures Words(s) == Words(first) + Words(rest)
  {
    assert first + rest == s;
    WordsSplit(first, rest, s);
  }

  lemma WordsLast(s: string, rest: string, last: string)
    requires s != "" && rest == s[..|s| - 1] && last == s[|s| - 1..]
    ensures Words(s) == Words(rest) + Words(last)
  {
    assert rest + last == s;
    WordsSplit(rest, last, s);
  }

  lemma WordsSplit(a: string, b: string, whole: string)
    requires a + b == whole
    ensures Words(whole) == Words(a) + Words(b)
  {
    WordsConcat(a, b);
  }

  lemma {:induction false} WordsOfBlanked(s: string)
    ensures Words(Blanked(s)) == Words(s)
  {
    if s != "" { WordsOfBlanked(s[1..]); }
  }

  lemma {:induction false} WordsOfSqueezed(s: string, inSpace: bool)
    ensures Words(Squeezed(s, inSpace)) == Words(s)
  {
    if s != "" {
      var rest := Squeezed(s[1..], IsSpace(s[0]));
      WordsOfSqueezed(s[1..], IsSpace(s[0]));
      WordsConcat(if IsSpace(s[0]) then (if inSpace then "" else " ") else s[..1], rest);
      WordsFirst(s, s[..1], s[1..]);
    }
  }

  lemma {:induction false} WordsOfTrimmed(s: string)
    ensures Words(TrimStart(s)) == Words(s) && Words(TrimEnd(s)) == Words(s)
    ensures Words(UnquotedStart(s)) == Words(s) && Words(UnquotedEnd(s)) == Words(s)
    decreases |s|
  {
    if s != "" {
      WordsFirst(s, s[..1], s[1..]);
      WordsLast(s, s[..|s| - 1], s[|s| - 1..]);
      WordsOfTrimmed(s[1..]);
      WordsOfTrimmed(s[..|s| - 1]);
    }
  }

  lemma WordsOfTrim(s: string)
    ensures Words(Trim(s)) == Words(s) && Words(Unquoted(s)) == Words(s)
  {
    WordsOfTrimmed(s);
    WordsOfTrimmed(TrimStart(s));
    WordsOfTrimmed(UnquotedStart(s));
  }

  /** Cleaning a name loses nothing but white space, forbidden characters and apostrophes. */
  lemma CleanedKeepsWords(name: string)
    ensures Words(Cleaned(name)) == Words(name)
  {
    var squeezed := Squeezed(Blanked(name), false);
    WordsOfBlanked(name);
    WordsOfSqueezed(Blanked(name), false);
    WordsOfTrim(squeezed);
    WordsOfTrim(Trim(squeezed));
    WordsOfTrim(Unquoted(Trim(squeezed)));
  }

  /** A name that needs no cleaning: nothing forbidden, single spaces and those inside only, no
      apostrophe at either end. */
  predicate Tidy(s: string) {
    && Allowed(s) && Single(s) && Trimmed(s) && !StartsQuoted(s) && !EndsQuoted(s)
    && forall c :: c in s && IsSpace(c) ==> c == ' '
  }

  lemma {:induction false} BlankedSame(s: string)
    requires Allowed(s)
    ensures Blanked(s) == s
  {
    if s != "" {
      assert s[0] in s && forall c :: c in s[1..] ==> c in s;
      BlankedSame(s[1..]);
    }
  }

  lemma {:induction false} SqueezedSame(s: string, inSpace: bool)
    requires Single(s) && (forall c :: c in s && IsSpace(c) ==> c == ' ') && (inSpace && s != "" ==> !IsSpace(s[0]))
    ensures Squeezed(s, inSpace) == s
  {
    if s != "" {
      assert s[0] in s && forall c :: c in s[1..] ==> c in s;
      if |s| > 1 { assert !(IsSpace(s[0]) && IsSpace(s[0 + 1])); }
      SqueezedSame(s[1..], IsSpace(s[0]));
      assert s == [s[0]] + s[1..];
    }
  }

  lemma TidyStays(s: string)
    requires Tidy(s)
    ensures Cleaned(s) == s
  {
    BlankedSame(s);
    SqueezedSame(s, false);
  }

  /** A tidy name of at most 31 characters, not reserved, is given out as it is while it is free; taken,
      it gets its number after a space, in parentheses, if that fits. */
  lemma TidyNameIsGiven(lower: Lower, used: set<string>, name: string, fallback: string, candidate: string)
    requires Tidy(name) && 0 < |name| <= 31 && lower(name) != "history"
    requires var base := SheetBase(lower, name, fallback); FirstFree(lower, used, base, SheetCandidates(base), candidate)
    ensures lower(name) !in used ==> candidate == name
    ensures lower(name) in used && |name| <= 31 - |" (" + Digits(|used| + 2) + ")"| ==>
              exists n :: 2 <= n <= |used| + 2 && candidate == name + (" (" + Digits(n) + ")")
  {
    BaseOfTidy(lower, name, fallback);
    if lower(name) in used {
      var n :| IsLeast(lower, used, SheetCandidates(name), n) && candidate == SheetCandidates(name)(n);
      DigitsGrow(n, |used| + 2);
      NumberedTidy(name, n);
    }
  }

  lemma BaseOfTidy(lower: Lower, name: string, fallback: string)
    requires Tidy(name) && 0 < |name| <= 31 && lower(name) != "history"
    ensures SheetBase(lower, name, fallback) == name
  {
    TidyStays(name);
    TrimOfTrimmed(name);
  }

  lemma NumberedTidy(name: string, n: nat)
    requires Trimmed(name)
    ensures |name| <= 31 - |" (" + Digits(n) + ")"| ==> NumberedSheet(name, n) == name + (" (" + Digits(n) + ")")
  {
    TrimOfTrimmed(name);
  }
}
