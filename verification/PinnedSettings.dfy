/** Exactly when the pinned settings are in force, for every URL. */
module PinnedSettings {
  import opened JsText
  import opened Prelude
  import opened SessionLaws
  import opened SessionMeaning
  import opened SessionOptions
  import opened SessionSettings

  // ---------------------------------------------------------------------------
  // The last carried token, with the next flag glued to it
  // ---------------------------------------------------------------------------

  const GLUE := " -c"

  /** An option whose last token has grown. */
  function Grown(item: Item): Item {
    match item
    case Setting(text, tokens) =>
      if |tokens| == 2 then Setting(text + GLUE, [tokens[0], tokens[1] + GLUE])
      else if |tokens| == 1 then Lone(tokens[0] + GLUE)
      else item
    case Other(tokens) => if |tokens| == 1 then Lone(tokens[0] + GLUE) else item
  }

  /** The tokens with the last one grown, and what follows. */
  function Glued(tokens: seq<string>, more: seq<string>): seq<string>
    requires tokens != []
  {
    tokens[..|tokens| - 1] + ([tokens[|tokens| - 1] + GLUE] + more)
  }

  lemma GluedAfter(head: seq<string>, tokens: seq<string>, more: seq<string>)
    requires tokens != []
    ensures Glued(head + tokens, more) == head + Glued(tokens, more)
    ensures (head + tokens)[|head + tokens| - 1] == tokens[|tokens| - 1]
  {
    assert (head + tokens)[..|head + tokens| - 1] == head + tokens[..|tokens| - 1];
  }

  lemma GrownGroups(tokens: seq<string>, more: seq<string>)
    requires tokens != [] && |First(tokens).tokens| == |tokens|
    ensures Items(Glued(tokens, more)) == [Grown(First(tokens))] + Items(more)
  {
    var item := First(tokens);
    assert item.tokens == tokens;
    var all := Glued(tokens, more);
    if |tokens| == 2 {
      assert all[..2] == [tokens[0], tokens[1] + GLUE] && all[2..] == more;
      assert First(all) == Grown(item);
    } else {
      assert all[0] == tokens[0] + GLUE && |all[0]| > 2 && all[1..] == more;
      assert First(all) == Lone(all[0]);
      assert Items(all) == [First(all)] + Items(all[1..]);
    }
  }

  lemma EarlierAreClosed(head: seq<string>, rest: seq<string>)
    requires Tokens(head + rest) && rest != []
    ensures AllClosed(head)
  {
    var tokens := head + rest;
    forall i | 0 <= i < |head| ensures head[i] != "" && Closed(head[i]) { assert head[i] == tokens[..|tokens| - 1][i]; }
  }

  /** Nothing but the last option can hold a carried token that dangles. */
  lemma DanglingComesLater(name: Naming, tokens: seq<string>)
    requires Tokens(tokens) && !Whole(Carried(name, tokens))
    requires tokens != [] && tokens[|First(tokens).tokens|..] != []
    ensures var rest := tokens[|First(tokens).tokens|..];
            Tokens(rest) && !Whole(Carried(name, rest))
  {
    var item := First(tokens);
    var rest := tokens[|item.tokens|..];
    assert tokens == item.tokens + rest;
    TokensTail(item.tokens, rest);
    EarlierAreClosed(item.tokens, rest);
    CarriedFirst(name, tokens);
    WholeConcat(if Kept(name, item) then item.tokens else [], Carried(name, rest));
  }

  lemma WholeConcat(a: seq<string>, b: seq<string>)
    requires AllClosed(a)
    ensures Whole(b) ==> Whole(a + b)
  {}

  function LastOf(tokens: seq<string>): string
    requires tokens != []
  {
    tokens[|tokens| - 1]
  }

  /** A carried token that dangles ends the last option, which is carried; grown, it regroups in its
      place after the other carried options. */
  lemma {:induction false} GrownInPlace(name: Naming, tokens: seq<string>, more: seq<string>) returns (before: seq<Item>, last: Item)
    requires Tokens(tokens) && !Whole(Carried(name, tokens))
    ensures AllKept(name, before) && Kept(name, last)
    ensures last.tokens != [] && last == First(last.tokens) && LastOf(last.tokens) == LastOf(Carried(name, tokens))
    ensures Items(Glued(Carried(name, tokens), more)) == before + ([Grown(last)] + Items(more))
    decreases |tokens|
  {
    assert tokens != [];
    var item := First(tokens);
    var rest := tokens[|item.tokens|..];
    if rest == [] {
      before, last := [], item;
      CarriedAlone(name, tokens, more);
    } else {
      DanglingComesLater(name, tokens);
      before, last := GrownInPlace(name, rest, more);
      GrownOver(name, tokens, Carried(name, rest), more, before, [Grown(last)] + Items(more));
      if Kept(name, item) {
        KeptPrepend(name, item, before);
        before := [item] + before;
      }
    }
  }

  lemma KeptPrepend(name: Naming, item: Item, items: seq<Item>)
    requires Kept(name, item) && AllKept(name, items)
    ensures AllKept(name, [item] + items)
  {}

  predicate AllKept(name: Naming, items: seq<Item>) {
    forall i :: 0 <= i < |items| ==> Kept(name, items[i])
  }

  lemma GrownOver(name: Naming, tokens: seq<string>, inner: seq<string>, more: seq<string>, before: seq<Item>, tail: seq<Item>)
    requires tokens != [] && tokens[|First(tokens).tokens|..] != []
    requires inner == Carried(name, tokens[|First(tokens).tokens|..]) && inner != []
    requires Items(Glued(inner, more)) == before + tail
    ensures Carried(name, tokens) != [] && LastOf(Carried(name, tokens)) == LastOf(inner)
    ensures Items(Glued(Carried(name, tokens), more)) ==
            (if Kept(name, First(tokens)) then [First(tokens)] + before else before) + tail
  {
    var item := First(tokens);
    CarriedFirst(name, tokens);
    if Kept(name, item) {
      OnlyLastIsBare(tokens);
      GroupsOne(tokens, true, Glued(inner, more));
      GluedAfter(item.tokens, inner, more);
      Regrouped([item], before, tail);
    } else {
      assert [] + inner == inner;
    }
  }

  lemma CarriedAlone(name: Naming, tokens: seq<string>, more: seq<string>)
    requires tokens != [] && |First(tokens).tokens| == |tokens| && Carried(name, tokens) != []
    ensures Kept(name, First(tokens)) && Carried(name, tokens) == tokens && First(tokens).tokens == tokens
    ensures Items(Glued(tokens, more)) == [] + ([Grown(First(tokens))] + Items(more))
  {
    CarriedFirst(name, tokens);
    assert tokens[|tokens|..] == [] && Carried(name, []) == [];
    assert First(tokens).tokens == tokens && tokens + [] == tokens;
    GrownGroups(tokens, more);
  }

  // ---------------------------------------------------------------------------
  // What the grown option sets
  // ---------------------------------------------------------------------------

  lemma {:induction false} UnescapedConcat(a: string, b: string)
    requires Closed(a)
    ensures Unescaped(a + b) == Unescaped(a) + Unescaped(b)
    decreases |a|
  {
    if a == "" {
      assert a + b == b;
    } else if a[0] == '\\' {
      assert (a + b)[2..] == a[2..] + b;
      UnescapedConcat(a[2..], b);
    } else {
      assert (a + b)[1..] == a[1..] + b;
      UnescapedConcat(a[1..], b);
    }
  }

  lemma {:induction false} IndexOfConcat(a: string, b: string, c: char)
    ensures IndexOf(a + b, c) == if c in a then IndexOf(a, c) else |a| + IndexOf(b, c)
  {
    if a == "" {
      assert a + b == b;
    } else {
      assert (a + b)[1..] == a[1..] + b;
      if a[0] != c { IndexOfConcat(a[1..], b, c); }
    }
  }

  lemma {:induction false} TrimStartOfGrown(s: string)
    ensures exists w :: TrimStart(s + GLUE) == w + "-c"
  {
    if s == "" {
      assert s + GLUE == " -c" && " -c"[1..] == "-c" && TrimStart("-c") == "-c";
      assert TrimStart(s + GLUE) == "" + "-c";
    } else if IsSpace(s[0]) {
      assert (s + GLUE)[1..] == s[1..] + GLUE;
      TrimStartOfGrown(s[1..]);
    } else {
      assert s + GLUE == (s + " ") + "-c";
    }
  }

  lemma {:induction false} DashesConcat(a: string, b: string)
    ensures Dashes(a + b) == Dashes(a) + Dashes(b)
  {
    if a == "" {
      assert a + b == b;
    } else {
      assert (a + b)[1..] == a[1..] + b;
      DashesConcat(a[1..], b);
    }
  }

  /** A name that ends in the glued flag is none of the pool's. */
  lemma GrownName(lower: Lower, plain: string)
    requires LowersNames(lower) && '=' !in plain
    ensures Dashes(lower(Trim(plain + GLUE))) != STATEMENT
  {
    TrimStartOfGrown(plain);
    var w :| TrimStart(plain + GLUE) == w + "-c";
    var s := w + "-c";
    assert s[|s| - 1] == 'c' && Trim(plain + GLUE) == s == Flagged(w);
    assert lower(Flagged(w)) == Flagged(lower(w)) == lower(w) + "-c";
    DashesConcat(lower(w), "-c");
    var d := Dashes("-c");
    assert "-c"[1..] == "c" && "c"[1..] == "" && d == "_" + "c";
    var named := Dashes(lower(w)) + d;
    assert named[|named| - 1] == 'c' && STATEMENT[|STATEMENT| - 1] == 't';
  }

  lemma PlainEnds()
    ensures Unescaped("\\") == "\\" && Unescaped("\\ -c") == GLUE
  {
    assert "\\"[1..] == "";
    assert "\\ -c"[2..] == "-c" && "-c"[1..] == "c" && "c"[1..] == "";
    assert Unescaped("-c") == "-c";
  }

  lemma PlainOfGrown(text: string) returns (plain: string)
    requires Dangling(text)
    ensures Unescaped(text) == plain + "\\" && Unescaped(text + GLUE) == plain + GLUE
  {
    var body := text[..|text| - 1];
    plain := Unescaped(body);
    assert text == body + "\\" && text + GLUE == body + "\\ -c";
    UnescapedConcat(body, "\\");
    UnescapedConcat(body, "\\ -c");
    PlainEnds();
  }

  /** A name before an equals sign does not see what comes after. */
  lemma SameBefore(plain: string, a: string, b: string)
    requires '=' in plain
    ensures var x, y := plain + a, plain + b; x[..IndexOf(x, '=')] == y[..IndexOf(y, '=')]
  {
    IndexOfConcat(plain, a, '=');
    IndexOfConcat(plain, b, '=');
    IndexOfHolds(plain, '=');
    var i := IndexOf(plain, '=');
    assert (plain + a)[..i] == plain[..i] == (plain + b)[..i];
  }

  lemma WholeName(plain: string)
    requires '=' !in plain
    ensures var x := plain + GLUE; x[..IndexOf(x, '=')] == x
  {
    IndexOfConcat(plain, GLUE, '=');
    assert IndexOf(GLUE, '=') == 3 && |GLUE| == 3;
  }

  /** The text of a dangling setting and the same grown: one name, or none of the pool's. */
  lemma GrownKeepsName(lower: Lower, text: string)
    requires LowersNames(lower) && Dangling(text) && !Managed(Name(lower, text))
    ensures Name(lower, text + GLUE) != STATEMENT
  {
    var plain := PlainOfGrown(text);
    if '=' in plain {
      SameBefore(plain, "\\", GLUE);
    } else {
      WholeName(plain);
      GrownName(lower, plain);
    }
  }

  // ---------------------------------------------------------------------------
  // The settings in force
  // ---------------------------------------------------------------------------

  lemma {:induction false} KeptHaveNoManaged(name: Naming, items: seq<Item>, n: string)
    requires AllKept(name, items) && Managed(n)
    ensures ValueOf(name, items, n) == None
  {
    if items != [] { KeptHaveNoManaged(name, items[1..], n); }
  }

  lemma DanglingTail(x: string)
    requires Dangling(x) && |x| >= 2 && (x[..2] == "--" || x[..2] == "-c")
    ensures Dangling(x[2..])
  {
    var body := x[..|x| - 1];
    assert x[..2][1] == x[1] && x[..2][0] == x[0];
    assert x[1] != '\\' && |x| > 2;
    assert Closed(body[1..]) && Closed(body[1..][1..]);
    assert body[1..][1..] == body[2..] == x[2..][..|x[2..]| - 1];
  }

  lemma LoneGrownSetsNothing(lower: Lower, x: string)
    requires LowersNames(lower) && Kept(SettingName(lower), Lone(x)) && Dangling(x)
    ensures Lone(x + GLUE).Setting? ==> Name(lower, Lone(x + GLUE).text) != STATEMENT
  {
    if |x| >= 2 {
      assert (x + GLUE)[..2] == x[..2] && (x + GLUE)[2..] == x[2..] + GLUE;
      if x[..2] == "--" || x[..2] == "-c" {
        DanglingTail(x);
        GrownKeepsName(lower, x[2..]);
      }
    } else {
      assert (x + GLUE)[0] == '\\' && (x + GLUE)[..2][0] == '\\';
    }
  }

  /** A carried option that dangles does not set the statement timeout once grown. */
  lemma GrownSetsNothing(lower: Lower, last: Item)
    requires LowersNames(lower) && Kept(SettingName(lower), last)
    requires last.tokens != [] && last == First(last.tokens) && Dangling(LastOf(last.tokens))
    ensures ValueOf(SettingName(lower), [Grown(last)], STATEMENT) == None
  {
    var name, x := SettingName(lower), last.tokens[|last.tokens| - 1];
    OneValue(name, Grown(last), STATEMENT);
    if |last.tokens| == 2 {
      GrownKeepsName(lower, x);
    } else {
      assert last == Lone(x) && Grown(last) == Lone(x + GLUE);
      LoneGrownSetsNothing(lower, x);
    }
  }

  function Options(name: Naming, url: string, t: Timeouts): string {
    Joined(Carried(name, Scan(url, "", false)) + Pinned(t))
  }

  /** Where the last carried token dangles, what a setting has is decided after the options before it. */
  lemma DanglingItems(name: Naming, url: string, t: Timeouts) returns (before: seq<Item>, last: Item)
    requires Numeric(t) && !Whole(Carried(name, Scan(url, "", false)))
    ensures AllKept(name, before) && Kept(name, last)
    ensures last.tokens != [] && last == First(last.tokens) && Dangling(LastOf(last.tokens))
    ensures Items(Scan(Options(name, url, t), "", false)) == before + ([Grown(last)] + Items(Pinned(t)[1..]))
  {
    var tokens, more := Scan(url, "", false), Pinned(t)[1..];
    var carried := Carried(name, tokens);
    UrlTokens(name, url);
    PinnedClosed(t);
    LastApart(carried, Pinned(t));
    DanglingGlues(carried[..|carried| - 1], carried[|carried| - 1], Pinned(t));
    assert carried[|carried| - 1] + " " + "-c" == carried[|carried| - 1] + GLUE;
    before, last := GrownInPlace(name, tokens, more);
  }

  /** If the last carried token dangles, the pinned statement timeout is lost. */
  lemma DanglingLosesTimeout(lower: Lower, url: string, t: Timeouts)
    requires LowersNames(lower) && Numeric(t) && !Whole(Carried(SettingName(lower), Scan(url, "", false)))
    ensures InForce(SettingName(lower), Options(SettingName(lower), url, t), STATEMENT) == None
  {
    var name, more := SettingName(lower), Items(Pinned(t)[1..]);
    var before, last := DanglingItems(name, url, t);
    GrownSetsNothing(lower, last);
    KeptHaveNoManaged(name, before, STATEMENT);
    FlaglessValues(lower, t, STATEMENT);
    ValueOfConcat(name, [Grown(last)], more, STATEMENT);
    ValueOfConcat(name, before, [Grown(last)] + more, STATEMENT);
  }

  /** The other pinned settings hold even so. */
  lemma DanglingKeepsOthers(lower: Lower, url: string, t: Timeouts, n: string)
    requires LowersNames(lower) && Numeric(t) && !Whole(Carried(SettingName(lower), Scan(url, "", false)))
    requires n in {TIMEZONE, IDLE}
    ensures InForce(SettingName(lower), Options(SettingName(lower), url, t), n) == PinnedValue(t, n)
  {
    var name, more := SettingName(lower), Items(Pinned(t)[1..]);
    var before, last := DanglingItems(name, url, t);
    NamesApart();
    FlaglessValues(lower, t, n);
    ValueOfConcat(name, [Grown(last)], more, n);
    ValueOfConcat(name, before, [Grown(last)] + more, n);
  }

  lemma NamesApart()
    ensures STATEMENT != TIMEZONE && STATEMENT != IDLE && TIMEZONE != IDLE
  {
    assert |STATEMENT| != |TIMEZONE| && |STATEMENT| != |IDLE| && |TIMEZONE| != |IDLE|;
  }

  /** The options after which everything pinned follows unharmed. */
  predicate Clean(name: Naming, url: string) {
    Whole(Carried(name, Scan(url, "", false))) && !EndsBare(Items(Scan(url, "", false)))
  }

  /** For every URL the time zone and the idle timeout are the pinned ones: nothing carried from it can
      override them. */
  lemma OthersAlwaysHold(lower: Lower, url: string, t: Timeouts)
    requires LowersNames(lower) && Numeric(t)
    ensures InForce(SettingName(lower), Options(SettingName(lower), url, t), TIMEZONE) == Some("UTC")
    ensures InForce(SettingName(lower), Options(SettingName(lower), url, t), IDLE) == Some(t.idle)
  {
    NamesApart();
    OtherHolds(lower, url, t, TIMEZONE);
    OtherHolds(lower, url, t, IDLE);
  }

  lemma OtherHolds(lower: Lower, url: string, t: Timeouts, n: string)
    requires LowersNames(lower) && Numeric(t) && n in {TIMEZONE, IDLE}
    ensures InForce(SettingName(lower), Options(SettingName(lower), url, t), n) == PinnedValue(t, n)
  {
    var name, tokens := SettingName(lower), Scan(url, "", false);
    if !Whole(Carried(name, tokens)) {
      DanglingKeepsOthers(lower, url, t, n);
    } else if EndsBare(Items(tokens)) {
      SplitsBack(name, url, t);
      NamesApart();
      BareSwallows(lower, tokens, t, n);
    } else {
      SettingsKeepTheirMeaning(lower, url, t, n);
    }
  }

  /** For every URL: the pinned statement timeout is in force exactly when the last carried token is
      complete and the options do not end in a `-c` without its argument. */
  lemma TimeoutHoldsExactly(lower: Lower, url: string, t: Timeouts)
    requires LowersNames(lower) && Numeric(t)
    ensures InForce(SettingName(lower), Options(SettingName(lower), url, t), STATEMENT) ==
            if Clean(SettingName(lower), url) then Some(t.statement) else None
  {
    var name, tokens := SettingName(lower), Scan(url, "", false);
    NamesApart();
    if !Whole(Carried(name, tokens)) {
      DanglingLosesTimeout(lower, url, t);
    } else if EndsBare(Items(tokens)) {
      SplitsBack(name, url, t);
      BareSwallows(lower, tokens, t, STATEMENT);
    } else {
      SettingsKeepTheirMeaning(lower, url, t, STATEMENT);
    }
  }

  /** And exactly then every pinned setting wins and every other keeps the value the URL gives. */
  lemma MeaningKeptExactly(lower: Lower, url: string, t: Timeouts)
    requires LowersNames(lower) && Numeric(t)
    ensures var name := SettingName(lower);
            (forall n :: InForce(name, Options(name, url, t), n) == if Managed(n) then PinnedValue(t, n) else InForce(name, url, n))
            <==> Clean(name, url)
  {
    var name := SettingName(lower);
    TimeoutHoldsExactly(lower, url, t);
    if Clean(name, url) {
      forall n ensures InForce(name, Options(name, url, t), n) == if Managed(n) then PinnedValue(t, n) else InForce(name, url, n) {
        SettingsKeepTheirMeaning(lower, url, t, n);
      }
    } else {
      NamesApart();
      assert InForce(name, Options(name, url, t), STATEMENT) != PinnedValue(t, STATEMENT) && Managed(STATEMENT);
    }
  }
}
