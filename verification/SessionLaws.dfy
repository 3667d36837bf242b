/** What the built options string does to a session, against what the URL alone would do. */
module SessionLaws {
  import opened SessionOptions
  import opened SessionSettings

  // ---------------------------------------------------------------------------
  // The built string splits back
  // ---------------------------------------------------------------------------

  lemma TokensConcat(a: seq<string>, b: seq<string>)
    requires AllClosed(a) && Tokens(b)
    ensures Tokens(a + b)
    ensures AllClosed(b) ==> AllClosed(a + b)
  {
    if b == [] {
      assert a + b == a;
    } else {
      assert (a + b)[..|a + b| - 1] == a + b[..|b| - 1];
    }
  }

  lemma CarriedTokensStep(item: seq<string>, rest: seq<string>, kept: bool, carried: seq<string>)
    requires rest != [] && Tokens(item + rest) && Tokens(carried) && (AllClosed(rest) ==> AllClosed(carried))
    ensures var all := (if kept then item else []) + carried;
            Tokens(all) && (AllClosed(item + rest) ==> AllClosed(all))
  {
    var tokens := item + rest;
    assert tokens[..|tokens| - 1] == item + rest[..|rest| - 1];
    assert AllClosed(item) by {
      forall i | 0 <= i < |item| ensures item[i] != "" && Closed(item[i]) { assert item[i] == tokens[..|tokens| - 1][i]; }
    }
    assert AllClosed(tokens) ==> AllClosed(rest) by {
      assert forall i :: 0 <= i < |rest| ==> rest[i] == tokens[|item| + i];
    }
    if kept { TokensConcat(item, carried); } else { assert [] + carried == carried; }
  }

  lemma TokensTail(item: seq<string>, rest: seq<string>)
    requires rest != [] && Tokens(item + rest)
    ensures Tokens(rest)
  {
    var tokens := item + rest;
    assert tokens[..|tokens| - 1] == item + rest[..|rest| - 1];
    forall i | 0 <= i < |rest| - 1 ensures rest[i] != "" && Closed(rest[i]) {
      assert rest[i] == tokens[..|tokens| - 1][|item| + i];
    }
  }

  lemma {:induction false} CarriedTokens(name: Naming, tokens: seq<string>)
    requires Tokens(tokens)
    ensures Tokens(Carried(name, tokens))
    ensures AllClosed(tokens) ==> AllClosed(Carried(name, tokens))
    decreases |tokens|
  {
    if tokens != [] {
      var item := First(tokens);
      var rest := tokens[|item.tokens|..];
      CarriedFirst(name, tokens);
      assert tokens == item.tokens + rest;
      if rest == [] {
        assert item.tokens == tokens && Carried(name, rest) == [];
      } else {
        TokensTail(item.tokens, rest);
        CarriedTokens(name, rest);
        CarriedTokensStep(item.tokens, rest, Kept(name, item), Carried(name, rest));
      }
    }
  }

  predicate WordChar(c: char) {
    'a' <= c <= 'z' || 'A' <= c <= 'Z' || '0' <= c <= '9' || c == '_'
  }

  predicate Word(s: string) {
    forall c :: c in s ==> WordChar(c)
  }

  lemma {:induction false} WordClosed(s: string)
    requires Word(s)
    ensures Closed(s)
  {
    if s != "" {
      assert s[0] in s && forall c :: c in s[1..] ==> c in s;
      WordClosed(s[1..]);
    }
  }

  lemma PoolWords(t: Timeouts)
    requires Numeric(t)
    ensures Word(STATEMENT) && Word(IDLE) && Word("TimeZone") && Word("UTC")
    ensures Word(t.statement) && Word(t.idle)
  {}

  lemma AssignClosed(name: string, value: string)
    requires Word(name) && Word(value)
    ensures Assign(name, value) != "" && Closed(Assign(name, value))
  {
    WordClosed(name);
    WordClosed(value);
    ClosedConcat("=", value);
    ClosedConcat(name, "=" + value);
    assert Assign(name, value) == name + ("=" + value);
  }

  lemma PinnedClosed(t: Timeouts)
    requires Numeric(t)
    ensures AllClosed(Pinned(t))
  {
    PoolWords(t);
    AssignClosed(STATEMENT, t.statement);
    AssignClosed(IDLE, t.idle);
    AssignClosed("TimeZone", "UTC");
    FlagClosed();
  }

  lemma FlagClosed()
    ensures Closed("-c")
  {
    assert "-c"[1..] == "c" && "c"[1..] == "";
  }

  /** A dangling backslash glues the token that follows to its own. */
  lemma GluesOne(last: string, pinned: seq<string>)
    requires Dangling(last) && AllClosed(pinned) && |pinned| > 1
    ensures Scan(Joined([last] + pinned), "", false) == [last + " " + pinned[0]] + pinned[1..]
  {
    var flag, rest := pinned[0], Joined(pinned[1..]);
    assert ([last] + pinned)[1..] == pinned;
    assert Joined(pinned) == flag + (" " + rest);
    DanglingNeverSplits(last, Joined(pinned));
    ScanClosed(flag, " " + rest, last + " ", true);
    assert (" " + rest)[1..] == rest;
    JoinedSplits(pinned[1..]);
  }

  lemma DanglingGlues(init: seq<string>, last: string, pinned: seq<string>)
    requires AllClosed(init) && Dangling(last) && AllClosed(pinned) && |pinned| > 1
    ensures Scan(Joined(init + ([last] + pinned)), "", false) == init + ([last + " " + pinned[0]] + pinned[1..])
  {
    GluesOne(last, pinned);
    JoinedConcat(init, [last] + pinned);
    if init != [] {
      JoinedSplitsBefore(init, Joined([last] + pinned));
    } else {
      assert init + ([last] + pinned) == [last] + pinned;
    }
  }

  lemma GluedIsDifferent(init: seq<string>, last: string, pinned: seq<string>, whole: seq<string>)
    requires AllClosed(init) && Dangling(last) && AllClosed(pinned) && |pinned| > 1
    requires whole == init + ([last] + pinned)
    ensures Scan(Joined(whole), "", false) != whole
  {
    DanglingGlues(init, last, pinned);
    assert |last + " " + pinned[0]| > |last|;
    DifferAfter(init, last + " " + pinned[0], last, pinned[1..], pinned);
  }

  lemma LastApart(carried: seq<string>, pinned: seq<string>)
    requires carried != []
    ensures carried + pinned == carried[..|carried| - 1] + ([carried[|carried| - 1]] + pinned)
  {}

  lemma DifferAfter(init: seq<string>, x: string, y: string, xs: seq<string>, ys: seq<string>)
    requires x != y
    ensures init + ([x] + xs) != init + ([y] + ys)
  {
    assert (init + ([x] + xs))[|init|] == x && (init + ([y] + ys))[|init|] == y;
  }

  lemma ClosedSplitsBack(carried: seq<string>, pinned: seq<string>)
    requires Tokens(carried) && Whole(carried) && AllClosed(pinned)
    ensures Scan(Joined(carried + pinned), "", false) == carried + pinned
  {
    ClosedToTheEnd(carried);
    ClosedConcats(carried, pinned);
    JoinedSplits(carried + pinned);
  }

  lemma ClosedConcats(a: seq<string>, b: seq<string>)
    requires AllClosed(a) && AllClosed(b)
    ensures AllClosed(a + b)
  {}

  lemma ClosedToTheEnd(tokens: seq<string>)
    requires Tokens(tokens) && Whole(tokens)
    ensures AllClosed(tokens)
  {
    forall i | 0 <= i < |tokens| ensures tokens[i] != "" && Closed(tokens[i]) {
      if i < |tokens| - 1 { assert tokens[i] == tokens[..|tokens| - 1][i]; }
    }
  }

  /** Splitting the built string gives the carried tokens and then the pinned ones, exactly when the
      last carried token does not end in a dangling backslash. */
  lemma SplitsBackExactly(carried: seq<string>, t: Timeouts)
    requires Tokens(carried) && Numeric(t)
    ensures Scan(Joined(carried + Pinned(t)), "", false) == carried + Pinned(t) <==>
            Whole(carried)
  {
    PinnedClosed(t);
    if Whole(carried) {
      ClosedSplitsBack(carried, Pinned(t));
    } else {
      LastApart(carried, Pinned(t));
      GluedIsDifferent(carried[..|carried| - 1], carried[|carried| - 1], Pinned(t), carried + Pinned(t));
    }
  }

  lemma UrlTokens(name: Naming, url: string)
    ensures Tokens(Scan(url, "", false)) && Tokens(Carried(name, Scan(url, "", false)))
    ensures !Dangles(url) ==> Whole(Carried(name, Scan(url, "", false)))
  {
    ScanGivesTokens(url, "", false);
    CarriedTokens(name, Scan(url, "", false));
  }

  /** So for every URL that has no dangling backslash, or whose dangling token is not carried. */
  lemma SplitsBack(name: Naming, url: string, t: Timeouts)
    requires Numeric(t) && Whole(Carried(name, Scan(url, "", false)))
    ensures var carried := Carried(name, Scan(url, "", false));
            Scan(Joined(carried + Pinned(t)), "", false) == carried + Pinned(t)
  {
    UrlTokens(name, url);
    SplitsBackExactly(Carried(name, Scan(url, "", false)), t);
  }
}
