/** The settings in force after the built options are applied in order. */
module SessionMeaning {
  import opened Prelude
  import opened JsText
  import opened SessionOptions
  import opened SessionSettings
  import opened SessionLaws

  /** The last setting of a name wins. */
  function ValueOf(name: Naming, items: seq<Item>, n: string): Option<string> {
    if items == [] then None
    else
      var later := ValueOf(name, items[1..], n);
      if later.Some? then later
      else if items[0].Setting? && name(items[0].text) == n then Some(ValueIn(items[0].text))
      else None
  }

  /** What a session is given by an options string. */
  function InForce(name: Naming, options: string, n: string): Option<string> {
    ValueOf(name, Items(Scan(options, "", false)), n)
  }

  lemma {:induction false} ValueOfConcat(name: Naming, a: seq<Item>, b: seq<Item>, n: string)
    ensures ValueOf(name, a + b, n) == if ValueOf(name, b, n).Some? then ValueOf(name, b, n) else ValueOf(name, a, n)
  {
    if a == [] {
      assert a + b == b;
    } else {
      assert (a + b)[1..] == a[1..] + b;
      ValueOfConcat(name, a[1..], b, n);
    }
  }

  /** Carrying keeps every setting the pool does not pin, and none that it does. */
  lemma {:induction false} KeptValues(name: Naming, items: seq<Item>, n: string)
    ensures ValueOf(name, KeptItems(name, items), n) == if Managed(n) then None else ValueOf(name, items, n)
  {
    if items != [] {
      var rest := KeptItems(name, items[1..]);
      KeptValues(name, items[1..], n);
      if Kept(name, items[0]) {
        assert ([items[0]] + rest)[1..] == rest;
      } else {
        assert [] + rest == rest;
      }
    }
  }

  // ---------------------------------------------------------------------------
  // Carried tokens group as they did
  // ---------------------------------------------------------------------------

  /** The options end in a `-c` with nothing after it. */
  predicate EndsBare(items: seq<Item>) {
    items != [] && items[|items| - 1].tokens == ["-c"]
  }

  /** Followed by anything, an option groups as before, unless it is a `-c` without its argument. */
  lemma FirstAgain(tokens: seq<string>, more: seq<string>)
    requires tokens != [] && (First(tokens).tokens == ["-c"] ==> more == [])
    ensures First(First(tokens).tokens + more) == First(tokens)
  {
    var item := First(tokens);
    assert item.tokens + [] == item.tokens;
    assert (item.tokens + more)[0] == tokens[0];
    if item.tokens != ["-c"] && tokens[0] == "-c" { assert (item.tokens + more)[..2] == item.tokens; }
  }

  lemma ItemsTail(tokens: seq<string>)
    requires tokens != []
    ensures var rest := tokens[|First(tokens).tokens|..];
            EndsBare(Items(tokens)) == if rest == [] then First(tokens).tokens == ["-c"] else EndsBare(Items(rest))
  {
    var rest := tokens[|First(tokens).tokens|..];
    var items := Items(tokens);
    assert items == [First(tokens)] + Items(rest);
    if rest != [] { assert items[|items| - 1] == Items(rest)[|Items(rest)| - 1]; }
  }

  lemma ItemsAgain(tokens: seq<string>, more: seq<string>)
    requires tokens != [] && (First(tokens).tokens == ["-c"] ==> more == [])
    ensures Items(First(tokens).tokens + more) == [First(tokens)] + Items(more)
  {
    FirstAgain(tokens, more);
    var again := First(tokens).tokens + more;
    assert again[|First(again).tokens|..] == more;
  }

  lemma GroupsOne(tokens: seq<string>, kept: bool, after: seq<string>)
    requires tokens != [] && (First(tokens).tokens == ["-c"] ==> after == [])
    ensures Items((if kept then First(tokens).tokens else []) + after) == (if kept then [First(tokens)] else []) + Items(after)
  {
    if kept {
      ItemsAgain(tokens, after);
    } else {
      assert [] + after == after && [] + Items(after) == Items(after);
    }
  }

  lemma BareIsLast(name: Naming, tokens: seq<string>, more: seq<string>)
    requires tokens != [] && (more == [] || !EndsBare(Items(tokens)))
    ensures var rest := tokens[|First(tokens).tokens|..];
            && (more == [] || !EndsBare(Items(rest)))
            && (First(tokens).tokens == ["-c"] ==> Carried(name, rest) + more == [])
  {
    ItemsTail(tokens);
    OnlyLastIsBare(tokens);
  }

  lemma {:induction false} GroupsAsBefore(name: Naming, tokens: seq<string>, more: seq<string>)
    requires more == [] || !EndsBare(Items(tokens))
    ensures Items(Carried(name, tokens) + more) == KeptItems(name, Items(tokens)) + Items(more)
    decreases |tokens|
  {
    if tokens == [] {
      assert Carried(name, tokens) + more == more;
    } else {
      var item := First(tokens);
      var rest := tokens[|item.tokens|..];
      BareIsLast(name, tokens, more);
      GroupsAsBefore(name, rest, more);
      CarriedFirst(name, tokens);
      KeptFirst(name, tokens);
      GroupsOne(tokens, Kept(name, item), Carried(name, rest) + more);
      GroupsStep(Items, if Kept(name, item) then item.tokens else [], Carried(name, rest), more,
                 if Kept(name, item) then [item] else [], KeptItems(name, Items(rest)), Items(more));
    }
  }

  /** Stated of any grouping, so that only its two equations matter. */
  lemma GroupsStep(group: seq<string> -> seq<Item>, head: seq<string>, rest: seq<string>, more: seq<string>,
                   first: seq<Item>, groups: seq<Item>, after: seq<Item>)
    requires group(head + (rest + more)) == first + group(rest + more)
    requires group(rest + more) == groups + after
    ensures group(head + rest + more) == first + groups + after
  {
    assert head + rest + more == head + (rest + more);
    Regrouped(first, groups, after);
  }

  lemma Regrouped(a: seq<Item>, b: seq<Item>, c: seq<Item>)
    ensures a + b + c == a + (b + c)
  {}

  lemma OnlyLastIsBare(tokens: seq<string>)
    requires tokens != []
    ensures First(tokens).tokens == ["-c"] ==> tokens == ["-c"]
  {
    if First(tokens).tokens == ["-c"] { assert tokens[..1] == ["-c"]; }
  }

  lemma KeptFirst(name: Naming, tokens: seq<string>)
    requires tokens != []
    ensures var item := First(tokens);
            KeptItems(name, Items(tokens)) ==
            (if Kept(name, item) then [item] else []) + KeptItems(name, Items(tokens[|item.tokens|..]))
  {
    assert Items(tokens)[1..] == Items(tokens[|First(tokens).tokens|..]);
  }

  // ---------------------------------------------------------------------------
  // The pinned settings
  // ---------------------------------------------------------------------------

  lemma WordPlain(s: string, rest: string)
    requires Word(s)
    ensures Unescaped(s + rest) == s + Unescaped(rest)
    ensures '=' !in s && '-' !in s
    ensures Trim(s) == s
  {
    WordUnescaped(s, rest);
    if s != "" { assert s[0] in s && s[|s| - 1] in s; }
  }

  lemma {:induction false} WordUnescaped(s: string, rest: string)
    requires Word(s)
    ensures Unescaped(s + rest) == s + Unescaped(rest)
  {
    if s == "" {
      assert s + rest == rest;
    } else {
      assert s[0] in s && forall c :: c in s[1..] ==> c in s;
      WordUnescaped(s[1..], rest);
      assert (s + rest)[0] == s[0] && (s + rest)[1..] == s[1..] + rest;
      assert s == [s[0]] + s[1..];
    }
  }

  lemma {:induction false} DashesPlain(s: string)
    requires '-' !in s
    ensures Dashes(s) == s
  {
    if s != "" { DashesPlain(s[1..]); }
  }

  lemma EqualsPlain(value: string)
    requires Word(value)
    ensures Unescaped("=" + value) == "=" + value
  {
    WordPlain(value, "");
    assert value + "" == value && ("=" + value)[1..] == value;
  }

  lemma AssignPlain(n: string, value: string)
    requires Word(n) && Word(value)
    ensures Unescaped(Assign(n, value)) == Assign(n, value)
  {
    EqualsPlain(value);
    WordPlain(n, "=" + value);
    assert Assign(n, value) == n + ("=" + value);
  }

  lemma AssignSplits(n: string, value: string)
    requires Word(n)
    ensures var s := Assign(n, value);
            IndexOf(s, '=') == |n| && s[..|n|] == n && s[|n| + 1..] == value
  {
    WordPlain(n, "");
    IndexAfter(n, '=', value);
  }

  /** `name=value` reads as that name and that value. */
  lemma AssignReads(lower: Lower, n: string, value: string)
    requires Word(n) && Word(value) && '-' !in lower(n)
    ensures Name(lower, Assign(n, value)) == lower(n) && ValueIn(Assign(n, value)) == value
  {
    AssignPlain(n, value);
    AssignSplits(n, value);
    WordPlain(n, "");
    DashesPlain(lower(n));
  }

  lemma OwnNames(lower: Lower, t: Timeouts)
    requires LowersNames(lower) && Numeric(t)
    ensures var name := SettingName(lower);
            && name(Assign(STATEMENT, t.statement)) == STATEMENT && ValueIn(Assign(STATEMENT, t.statement)) == t.statement
            && name(Assign(IDLE, t.idle)) == IDLE && ValueIn(Assign(IDLE, t.idle)) == t.idle
            && name(Assign("TimeZone", "UTC")) == TIMEZONE && ValueIn(Assign("TimeZone", "UTC")) == "UTC"
  {
    PoolWords(t);
    AssignReads(lower, STATEMENT, t.statement);
    AssignReads(lower, IDLE, t.idle);
    AssignReads(lower, "TimeZone", "UTC");
  }

  function PinnedItems(t: Timeouts): seq<Item> {
    [Setting(Assign(STATEMENT, t.statement), ["-c", Assign(STATEMENT, t.statement)]),
     Setting(Assign(IDLE, t.idle), ["-c", Assign(IDLE, t.idle)]),
     Setting(Assign("TimeZone", "UTC"), ["-c", Assign("TimeZone", "UTC")])]
  }

  lemma PairGroups(a: string, more: seq<string>)
    ensures Items(["-c", a] + more) == [Setting(a, ["-c", a])] + Items(more)
  {
    var all := ["-c", a] + more;
    assert all[..2] == ["-c", a] && all[2..] == more;
  }

  lemma ThreePairsGroup(a: string, b: string, c: string)
    ensures Items(["-c", a, "-c", b, "-c", c]) == [Setting(a, ["-c", a]), Setting(b, ["-c", b]), Setting(c, ["-c", c])]
  {
    var all := ["-c", a, "-c", b, "-c", c];
    PairGroups(c, []);
    PairGroups(b, ["-c", c]);
    PairGroups(a, ["-c", b, "-c", c]);
    assert ["-c", c] + [] == ["-c", c] && ["-c", b] + ["-c", c] == ["-c", b, "-c", c];
    assert ["-c", a] + ["-c", b, "-c", c] == all;
  }

  lemma ThreeValues(name: Naming, x: Item, y: Item, z: Item, n: string)
    requires x.Setting? && y.Setting? && z.Setting?
    ensures ValueOf(name, [x, y, z], n) ==
            if name(z.text) == n then Some(ValueIn(z.text))
            else if name(y.text) == n then Some(ValueIn(y.text))
            else if name(x.text) == n then Some(ValueIn(x.text))
            else None
  {
    OneValue(name, x, n);
    OneValue(name, y, n);
    OneValue(name, z, n);
    ValueOfConcat(name, [y], [z], n);
    ValueOfConcat(name, [x], [y, z], n);
    assert [y] + [z] == [y, z] && [x] + [y, z] == [x, y, z];
  }

  lemma OneValue(name: Naming, x: Item, n: string)
    ensures ValueOf(name, [x], n) == if x.Setting? && name(x.text) == n then Some(ValueIn(x.text)) else None
  {
    assert [x][1..] == [];
  }

  /** What the pool's own options give. */
  function PinnedValue(t: Timeouts, n: string): Option<string> {
    if n == TIMEZONE then Some("UTC")
    else if n == IDLE then Some(t.idle)
    else if n == STATEMENT then Some(t.statement)
    else None
  }

  lemma PinnedValues(lower: Lower, t: Timeouts, n: string)
    requires LowersNames(lower) && Numeric(t)
    ensures ValueOf(SettingName(lower), PinnedItems(t), n) == PinnedValue(t, n)
  {
    OwnNames(lower, t);
    var items := PinnedItems(t);
    ThreeValues(SettingName(lower), items[0], items[1], items[2], n);
  }

  /** The pinned settings win, and every other setting is what the URL alone would give. */
  lemma SettingsKeepTheirMeaning(lower: Lower, url: string, t: Timeouts, n: string)
    requires LowersNames(lower) && Numeric(t)
    requires Whole(Carried(SettingName(lower), Scan(url, "", false))) && !EndsBare(Items(Scan(url, "", false)))
    ensures var name := SettingName(lower);
            var options := Joined(Carried(name, Scan(url, "", false)) + Pinned(t));
            InForce(name, options, n) == if Managed(n) then PinnedValue(t, n) else InForce(name, url, n)
  {
    var name, tokens := SettingName(lower), Scan(url, "", false);
    SplitsBack(name, url, t);
    GroupsAsBefore(name, tokens, Pinned(t));
    ThreePairsGroup(Assign(STATEMENT, t.statement), Assign(IDLE, t.idle), Assign("TimeZone", "UTC"));
    ValueOfConcat(name, KeptItems(name, Items(tokens)), PinnedItems(t), n);
    PinnedValues(lower, t, n);
    KeptValues(name, Items(tokens), n);
  }

  // ---------------------------------------------------------------------------
  // Where it fails
  // ---------------------------------------------------------------------------

  lemma BareNotManaged(lower: Lower)
    requires LowersNames(lower)
    ensures !Managed(Name(lower, ""))
    ensures Name(lower, "-c") != STATEMENT
  {
    var none := "";
    assert lower(Flagged(none)) == Flagged(lower(none)) && Flagged(none) == "-c";
    assert Unescaped("-c") == "-c" by { assert "-c"[1..] == "c" && "c"[1..] == ""; }
    assert IndexOf("-c", '=') == 2 && "-c"[..2] == "-c";
    assert Trim("-c") == "-c";
    assert Dashes("-c")[0] == '_';
  }

  const BARE := Setting("", ["-c"])

  /** A trailing `-c` takes whatever follows as its argument. */
  lemma {:induction false} BareGroups(name: Naming, tokens: seq<string>, more: seq<string>, after: seq<Item>)
    requires EndsBare(Items(tokens)) && !Managed(name("")) && after == Items(["-c"] + more)
    ensures BareLast(Items(Carried(name, tokens) + more), KeptItems(name, Items(tokens)), after)
    decreases |tokens|
  {
    var item := First(tokens);
    var rest := tokens[|item.tokens|..];
    ItemsTail(tokens);
    OnlyLastIsBare(tokens);
    if rest == [] {
      BareAlone(name, tokens, more);
      assert [] + after == after && [BARE][..0] == [];
    } else {
      BareGroups(name, rest, more, after);
      CarriedFirst(name, tokens);
      KeptFirst(name, tokens);
      BareOver(tokens, Kept(name, item), Carried(name, rest), more, KeptItems(name, Items(rest)), after);
    }
  }

  /** The options are the kept ones with the bare flag at their end replaced by what it groups into. */
  predicate BareLast(options: seq<Item>, kept: seq<Item>, after: seq<Item>) {
    kept != [] && kept[|kept| - 1] == BARE && options == kept[..|kept| - 1] + after
  }

  lemma BareOver(tokens: seq<string>, keep: bool, inner: seq<string>, more: seq<string>, kept: seq<Item>, after: seq<Item>)
    requires tokens != [] && First(tokens).tokens != ["-c"] && BareLast(Items(inner + more), kept, after)
    ensures BareLast(Items(((if keep then First(tokens).tokens else []) + inner) + more),
                     (if keep then [First(tokens)] else []) + kept, after)
  {
    var item := First(tokens);
    var head := if keep then [item] else [];
    GroupsOne(tokens, keep, inner + more);
    AllButLast(head, kept);
    GroupsStep(Items, if keep then item.tokens else [], inner, more, head, kept[..|kept| - 1], after);
  }

  lemma AllButLast(a: seq<Item>, b: seq<Item>)
    requires b != []
    ensures (a + b)[..|a + b| - 1] == a + b[..|b| - 1] && (a + b)[|a + b| - 1] == b[|b| - 1]
  {}

  lemma BareAlone(name: Naming, tokens: seq<string>, more: seq<string>)
    requires tokens == ["-c"] && !Managed(name(""))
    ensures KeptItems(name, Items(tokens)) == [BARE] && Carried(name, tokens) + more == ["-c"] + more
  {
    assert "-c"[..2] == "-c" && "-c"[2..] == "";
    assert First(tokens) == BARE;
    OneCarried(name, "-c");
  }

  lemma OneCarried(name: Naming, token: string)
    requires Kept(name, First([token]))
    ensures First([token]) == Lone(token) && Items([token]) == [Lone(token)]
    ensures KeptItems(name, Items([token])) == [Lone(token)] && Carried(name, [token]) == [token]
  {
    var item := Lone(token);
    assert [token][1..] == [] && Items([token]) == [item] + [];
    assert [item][1..] == [] && KeptItems(name, [item]) == [item] + [];
    assert Spelled([item]) == item.tokens + [];
  }

  /** What the pool's own options give once the flag of the first is taken: that one is no setting any
      more, the others hold. */
  function FlaglessValue(t: Timeouts, n: string): Option<string> {
    if n == STATEMENT then None else PinnedValue(t, n)
  }

  lemma FlaglessValues(lower: Lower, t: Timeouts, n: string)
    requires LowersNames(lower) && Numeric(t)
    ensures ValueOf(SettingName(lower), Items(Pinned(t)[1..]), n) == FlaglessValue(t, n)
  {
    var name := SettingName(lower);
    var s, i, z := Assign(STATEMENT, t.statement), Assign(IDLE, t.idle), Assign("TimeZone", "UTC");
    var tail := ["-c", i, "-c", z];
    assert Pinned(t)[1..] == [s] + tail;
    TwoPairsGroup(i, z);
    StatementIsOther(t);
    OtherGroups(s, tail);
    OwnNames(lower, t);
    OneValue(name, Other([s]), n);
    TwoValues(name, Setting(i, ["-c", i]), Setting(z, ["-c", z]), n);
    ValueOfConcat(name, [Other([s])], [Setting(i, ["-c", i])] + [Setting(z, ["-c", z])], n);
  }

  lemma TwoValues(name: Naming, y: Item, z: Item, n: string)
    requires y.Setting? && z.Setting?
    ensures ValueOf(name, [y] + [z], n) ==
            if name(z.text) == n then Some(ValueIn(z.text)) else if name(y.text) == n then Some(ValueIn(y.text)) else None
  {
    OneValue(name, y, n);
    OneValue(name, z, n);
    ValueOfConcat(name, [y], [z], n);
  }

  lemma TwoPairsGroup(a: string, b: string)
    ensures Items(["-c", a, "-c", b]) == [Setting(a, ["-c", a])] + [Setting(b, ["-c", b])]
  {
    PairGroups(b, []);
    PairGroups(a, ["-c", b]);
    assert ["-c", b] + [] == ["-c", b] && ["-c", a] + ["-c", b] == ["-c", a, "-c", b];
  }

  lemma StatementIsOther(t: Timeouts)
    ensures Lone(Assign(STATEMENT, t.statement)) == Other([Assign(STATEMENT, t.statement)])
    ensures Assign(STATEMENT, t.statement) != "-c"
  {
    var s := Assign(STATEMENT, t.statement);
    assert s[0] == STATEMENT[0] == 's';
    assert s[..2][0] == 's' && "--"[0] == '-' && "-c"[0] == '-';
  }

  lemma OtherGroups(s: string, tail: seq<string>)
    requires Lone(s) == Other([s]) && s != "-c"
    ensures Items([s] + tail) == [Other([s])] + Items(tail)
  {
    assert ([s] + tail)[1..] == tail;
  }

  lemma NoValueBefore(name: Naming, items: seq<Item>, n: string)
    requires items != [] && ValueOf(name, items, n) == None
    ensures ValueOf(name, items[..|items| - 1], n) == None
  {
    var before, last := items[..|items| - 1], [items[|items| - 1]];
    assert items == before + last;
    ValueOfConcat(name, before, last, n);
  }

  /** After a trailing `-c` the statement timeout is lost, and the other pinned settings hold. */
  lemma BareSwallows(lower: Lower, tokens: seq<string>, t: Timeouts, n: string)
    requires LowersNames(lower) && Numeric(t) && EndsBare(Items(tokens)) && PinnedValue(t, n).Some?
    ensures ValueOf(SettingName(lower), Items(Carried(SettingName(lower), tokens) + Pinned(t)), n) == FlaglessValue(t, n)
  {
    var name := SettingName(lower);
    BareNotManaged(lower);
    BareGroups(name, tokens, Pinned(t), Items(["-c"] + Pinned(t)));
    var kept := KeptItems(name, Items(tokens));
    var before := kept[..|kept| - 1];
    KeptValues(name, Items(tokens), n);
    NoValueBefore(name, kept, n);
    SwallowedFlag(lower, t, n);
    ValueOfConcat(name, before, Items(["-c"] + Pinned(t)), n);
  }

  const TAKEN := Setting("-c", ["-c", "-c"])

  lemma SwallowedFlag(lower: Lower, t: Timeouts, n: string)
    requires LowersNames(lower) && Numeric(t) && PinnedValue(t, n).Some?
    ensures ValueOf(SettingName(lower), Items(["-c"] + Pinned(t)), n) == FlaglessValue(t, n)
  {
    FlaglessValues(lower, t, n);
    FlagTaken(lower, Pinned(t), FlaglessValue(t, n), n);
  }

  /** A flag that takes the next flag as its argument has no say in the pool's own settings. */
  lemma FlagTaken(lower: Lower, pinned: seq<string>, v: Option<string>, n: string)
    requires LowersNames(lower) && pinned != [] && pinned[0] == "-c"
    requires ValueOf(SettingName(lower), Items(pinned[1..]), n) == v && (n == STATEMENT || v.Some?)
    ensures ValueOf(SettingName(lower), Items(["-c"] + pinned), n) == v
  {
    FlagFirst(pinned);
    PairGroups("-c", pinned[1..]);
    TakenIsOther(lower);
    ValueAfter(SettingName(lower), TAKEN, Items(pinned[1..]), n);
  }

  lemma FlagFirst(pinned: seq<string>)
    requires pinned != [] && pinned[0] == "-c"
    ensures ["-c"] + pinned == ["-c", "-c"] + pinned[1..]
  {
    assert pinned == [pinned[0]] + pinned[1..];
  }

  lemma TakenIsOther(lower: Lower)
    requires LowersNames(lower)
    ensures SettingName(lower)(TAKEN.text) != STATEMENT
  {
    BareNotManaged(lower);
  }

  lemma ValueAfter(name: Naming, first: Item, rest: seq<Item>, n: string)
    requires first.Setting?
    ensures ValueOf(name, [first] + rest, n) ==
            if ValueOf(name, rest, n).Some? then ValueOf(name, rest, n)
            else if name(first.text) == n then Some(ValueIn(first.text)) else None
  {
    OneValue(name, first, n);
    ValueOfConcat(name, [first], rest, n);
  }
}
