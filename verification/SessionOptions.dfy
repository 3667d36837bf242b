/** The session options string of a database connection: what the URL carries, then the settings
    the pool pins. */
module SessionOptions {
  import opened JsText

  // ---------------------------------------------------------------------------
  // Tokens
  // ---------------------------------------------------------------------------

  /** The tokens of `s`, with a token already under way. */
  function Scan(s: string, current: string, inToken: bool): seq<string>
    decreases |s|
  {
    if s == "" then if inToken then [current] else []
    else if s[0] == '\\' then
      if |s| == 1 then [current + s] else Scan(s[2..], current + s[..2], true)
    else if IsSpace(s[0]) then (if inToken then [current] else []) + Scan(s[1..], "", false)
    else Scan(s[1..], current + s[..1], true)
  }

  /** Split on unescaped white space; escapes are kept. */
  method Tokenize(value: string) returns (tokens: seq<string>)
    ensures tokens == Scan(value, "", false)
  {
    tokens := [];
    var current, inToken, index := "", false, 0;
    while index < |value|
      invariant 0 <= index <= |value| + 1
      invariant tokens + Scan(Rest(value, index), current, inToken) == Scan(value, "", false)
    {
      var c := value[index];
      ghost var rest := Rest(value, index);
      if c == '\\' {
        ghost var before := current;
        current := current + [c] + (if index + 1 < |value| then [value[index + 1]] else "");
        if |rest| > 1 {
          assert rest[2..] == Rest(value, index + 2) && before + rest[..2] == current;
        } else {
          assert before + rest == current && Rest(value, index + 2) == "";
        }
        index := index + 2;
        inToken := true;
      } else {
        assert rest[0] == c && rest[1..] == Rest(value, index + 1) && current + rest[..1] == current + [c];
        index := index + 1;
        if IsSpace(c) {
          if inToken { tokens := tokens + [current]; }
          current := "";
          inToken := false;
        } else {
          current := current + [c];
          inToken := true;
        }
      }
    }
    if inToken { tokens := tokens + [current]; }
  }

  function Rest(value: string, index: nat): string {
    if index <= |value| then value[index..] else ""
  }

  /** No unescaped white space, and no backslash with nothing after it. */
  predicate Closed(t: string) {
    if t == "" then true
    else if t[0] == '\\' then |t| > 1 && Closed(t[2..])
    else !IsSpace(t[0]) && Closed(t[1..])
  }

  predicate Dangling(t: string) {
    t != "" && t[|t| - 1] == '\\' && Closed(t[..|t| - 1])
  }

  /** Does a backslash with nothing after it end the string? */
  predicate Dangles(s: string) {
    s != "" && if s[0] == '\\' then |s| == 1 || Dangles(s[2..]) else Dangles(s[1..])
  }

  lemma {:induction false} ScanClosed(t: string, rest: string, current: string, inToken: bool)
    requires Closed(t)
    ensures Scan(t + rest, current, inToken) == Scan(rest, current + t, inToken || t != "")
    decreases |t|
  {
    var s := t + rest;
    if t == "" {
      assert s == rest && current + t == current;
    } else if t[0] == '\\' {
      assert s[2..] == t[2..] + rest && s[..2] == t[..2];
      ScanClosed(t[2..], rest, current + t[..2], true);
      assert current + t[..2] + t[2..] == current + t;
    } else {
      assert s[1..] == t[1..] + rest && s[..1] == t[..1];
      ScanClosed(t[1..], rest, current + t[..1], true);
      assert current + t[..1] + t[1..] == current + t;
    }
  }

  lemma {:induction false} ClosedConcat(a: string, b: string)
    requires Closed(a) && Closed(b)
    ensures Closed(a + b)
    decreases |a|
  {
    if a == "" {
      assert a + b == b;
    } else if a[0] == '\\' {
      ClosedConcat(a[2..], b);
      assert (a + b)[2..] == a[2..] + b;
    } else {
      ClosedConcat(a[1..], b);
      assert (a + b)[1..] == a[1..] + b;
    }
  }

  predicate AllClosed(tokens: seq<string>) {
    forall i :: 0 <= i < |tokens| ==> tokens[i] != "" && Closed(tokens[i])
  }

  /** Complete tokens, except that the last may dangle. */
  predicate Tokens(tokens: seq<string>) {
    tokens == [] || (AllClosed(tokens[..|tokens| - 1]) && var last := tokens[|tokens| - 1]; last != "" && (Closed(last) || Dangling(last)))
  }

  /** The last token, if any, is complete. */
  predicate Whole(tokens: seq<string>) {
    tokens == [] || Closed(tokens[|tokens| - 1])
  }

  lemma PrependToken(t: string, tokens: seq<string>)
    requires t != "" && Closed(t) && Tokens(tokens)
    ensures Tokens([t] + tokens)
  {
    var more := [t] + tokens;
    if tokens != [] { assert more[..|more| - 1] == [t] + tokens[..|tokens| - 1]; }
  }

  /** A token grows by one character, or by a backslash and what it escapes. */
  lemma CurrentGrows(current: string, s: string)
    requires Closed(current) && s != ""
    ensures s[0] == '\\' && |s| > 1 ==> Closed(current + s[..2])
    ensures s[0] != '\\' && !IsSpace(s[0]) ==> Closed(current + s[..1])
  {
    if s[0] == '\\' && |s| > 1 {
      assert s[..2][2..] == "";
      ClosedConcat(current, s[..2]);
    } else if s[0] != '\\' && !IsSpace(s[0]) {
      assert s[..1][1..] == "";
      ClosedConcat(current, s[..1]);
    }
  }

  lemma DanglingAlone(current: string, s: string)
    requires Closed(current) && s == "\\"
    ensures Dangling(current + s) && Tokens([current + s])
  {
    assert (current + s)[..|current + s| - 1] == current;
  }

  lemma {:induction false} ScanGivesTokens(s: string, current: string, inToken: bool)
    requires Closed(current) && (inToken <==> current != "")
    ensures Tokens(Scan(s, current, inToken))
    ensures !Dangles(s) ==> AllClosed(Scan(s, current, inToken))
    decreases |s|
  {
    if s != "" {
      CurrentGrows(current, s);
      if s[0] == '\\' {
        if |s| == 1 { DanglingAlone(current, s); } else { ScanGivesTokens(s[2..], current + s[..2], true); }
      } else if IsSpace(s[0]) {
        ScanGivesTokens(s[1..], "", false);
        if inToken { PrependToken(current, Scan(s[1..], "", false)); }
      } else {
        ScanGivesTokens(s[1..], current + s[..1], true);
      }
    }
  }

  // ---------------------------------------------------------------------------
  // Joining and splitting again
  // ---------------------------------------------------------------------------

  function Joined(parts: seq<string>): string {
    if parts == [] then "" else if |parts| == 1 then parts[0] else parts[0] + " " + Joined(parts[1..])
  }

  lemma {:induction false} JoinedConcat(a: seq<string>, b: seq<string>)
    requires b != []
    ensures Joined(a + b) == if a == [] then Joined(b) else Joined(a) + " " + Joined(b)
  {
    if a == [] {
      assert a + b == b;
    } else {
      assert (a + b)[1..] == a[1..] + b;
      JoinedConcat(a[1..], b);
    }
  }

  lemma SpaceEndsToken(t: string, rest: string)
    requires t != "" && Closed(t)
    ensures Scan(t + " " + rest, "", false) == [t] + Scan(rest, "", false)
  {
    ScanClosed(t, " " + rest, "", false);
    assert t + " " + rest == t + (" " + rest) && "" + t == t;
    assert (" " + rest)[1..] == rest;
  }

  lemma {:induction false} JoinedSplitsBefore(tokens: seq<string>, rest: string)
    requires AllClosed(tokens) && tokens != []
    ensures Scan(Joined(tokens) + " " + rest, "", false) == tokens + Scan(rest, "", false)
  {
    var t := tokens[0];
    if |tokens| == 1 {
      SpaceEndsToken(t, rest);
    } else {
      var tail := Joined(tokens[1..]);
      assert Joined(tokens) + " " + rest == t + " " + (tail + " " + rest);
      SpaceEndsToken(t, tail + " " + rest);
      JoinedSplitsBefore(tokens[1..], rest);
    }
  }

  lemma OneTokenSplits(t: string)
    requires t != "" && Closed(t)
    ensures Scan(t, "", false) == [t]
  {
    ScanClosed(t, "", "", false);
    assert t + "" == t && "" + t == t;
  }

  /** Complete tokens joined by spaces split into themselves. */
  lemma JoinedSplits(tokens: seq<string>)
    requires AllClosed(tokens)
    ensures Scan(Joined(tokens), "", false) == tokens
  {
    if tokens != [] {
      var init, last := tokens[..|tokens| - 1], tokens[|tokens| - 1];
      assert tokens == init + [last];
      OneTokenSplits(last);
      if init != [] {
        JoinedSplitsBefore(init, last);
        JoinedConcat(init, [last]);
      }
    }
  }

  lemma {:induction false} FirstTokenExtends(s: string, current: string)
    ensures Scan(s, current, true) != [] && current <= Scan(s, current, true)[0]
    decreases |s|
  {
    if s != "" {
      if s[0] == '\\' {
        if |s| > 1 { FirstTokenExtends(s[2..], current + s[..2]); }
      } else if !IsSpace(s[0]) {
        FirstTokenExtends(s[1..], current + s[..1]);
      }
    }
  }

  /** A dangling backslash swallows the space that follows, so its token does not come back. */
  lemma DanglingNeverSplits(t: string, rest: string)
    requires Dangling(t)
    ensures Scan(t + " " + rest, "", false) == Scan(rest, t + " ", true)
    ensures Scan(rest, t + " ", true) != [] && Scan(rest, t + " ", true)[0] != t
  {
    var body := t[..|t| - 1];
    var after := "\\ " + rest;
    assert t + " " + rest == body + after;
    ScanClosed(body, after, "", false);
    assert after[2..] == rest && after[..2] == "\\ ";
    assert "" + body == body && body + "\\ " == t + " ";
    FirstTokenExtends(rest, t + " ");
  }
}
