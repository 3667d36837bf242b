/** Which settings a session ends up with: the pinned ones win, the URL's others stay. */
module SessionSettings {
  import opened Prelude
  import opened JsText
  import opened SessionOptions

  // ---------------------------------------------------------------------------
  // Items: settings and other options
  // ---------------------------------------------------------------------------

  /** One option with the tokens that spell it. */
  datatype Item =
    | Setting(text: string, tokens: seq<string>)
    | Other(tokens: seq<string>)

  function Lone(token: string): Item {
    if (|token| >= 2 && token[..2] == "--") || (|token| >= 2 && token[..2] == "-c") then Setting(token[2..], [token])
    else Other([token])
  }

  /** `-c` takes the next token, if there is one; `--name=value` and `-cname=value` stand alone. */
  function First(tokens: seq<string>): (item: Item)
    requires tokens != []
    ensures 1 <= |item.tokens| <= |tokens| && item.tokens == tokens[..|item.tokens|]
  {
    if tokens[0] == "-c" && |tokens| > 1 then Setting(tokens[1], tokens[..2]) else Lone(tokens[0])
  }

  function Items(tokens: seq<string>): seq<Item> {
    if tokens == [] then [] else [First(tokens)] + Items(tokens[|First(tokens).tokens|..])
  }

  /** `\x` stands for `x`. */
  function Unescaped(s: string): string {
    if s == "" then ""
    else if s[0] == '\\' && |s| > 1 then [s[1]] + Unescaped(s[2..])
    else [s[0]] + Unescaped(s[1..])
  }

  function Dashes(s: string): string {
    if s == "" then "" else [if s[0] == '-' then '_' else s[0]] + Dashes(s[1..])
  }

  type Lower = string -> string

  const TIMEZONE := "timezone"
  const STATEMENT := "statement_timeout"
  const IDLE := "idle_in_transaction_session_timeout"
  const APPLICATION := "application_name"

  function Flagged(s: string): string {
    s + "-c"
  }

  /** What is needed of lower-casing: how it treats the pool's own names, and that
      `-c` at the end stays what it is. */
  ghost predicate LowersNames(lower: Lower) {
    && lower("") == "" && (forall s :: lower(Flagged(s)) == Flagged(lower(s))) && lower("TimeZone") == TIMEZONE
    && lower(STATEMENT) == STATEMENT && lower(IDLE) == IDLE
  }

  function Name(lower: Lower, setting: string): string {
    var plain := Unescaped(setting);
    Dashes(lower(Trim(plain[..IndexOf(plain, '=')])))
  }

  function ValueIn(setting: string): string {
    var plain := Unescaped(setting);
    var i := IndexOf(plain, '=');
    if i < |plain| then plain[i + 1..] else ""
  }

  predicate Managed(name: string) {
    name == TIMEZONE || name == STATEMENT || name == IDLE || name == APPLICATION
  }

  /** How the name of a setting is read off its text. */
  type Naming = string -> string

  function SettingName(lower: Lower): Naming {
    setting => Name(lower, setting)
  }

  predicate Kept(name: Naming, item: Item) {
    item.Setting? ==> !Managed(name(item.text))
  }

  function KeptItems(name: Naming, items: seq<Item>): seq<Item> {
    if items == [] then []
    else (if Kept(name, items[0]) then [items[0]] else []) + KeptItems(name, items[1..])
  }

  function Spelled(items: seq<Item>): seq<string> {
    if items == [] then [] else items[0].tokens + Spelled(items[1..])
  }

  /** The URL's tokens without the settings the pool pins, in their order. */
  function Carried(name: Naming, tokens: seq<string>): seq<string> {
    Spelled(KeptItems(name, Items(tokens)))
  }

  lemma CarriedFirst(name: Naming, tokens: seq<string>)
    requires tokens != []
    ensures var item := First(tokens);
            Carried(name, tokens) == (if Kept(name, item) then item.tokens else []) + Carried(name, tokens[|item.tokens|..])
  {
    var item := First(tokens);
    var rest := Items(tokens[|item.tokens|..]);
    assert Items(tokens)[1..] == rest;
    var kept := KeptItems(name, rest);
    assert ([item] + kept)[1..] == kept && [] + kept == kept;
  }

  function ItemOf(group: seq<string>, setting: Option<string>): Item {
    if setting.Some? then Setting(setting.value, group) else Other(group)
  }

  lemma CarriedStep(name: Naming, tokens: seq<string>, index: nat, group: seq<string>, setting: Option<string>, kept: seq<string>)
    requires index < |tokens| && First(tokens[index..]) == ItemOf(group, setting)
    ensures index + |group| <= |tokens|
    ensures kept + Carried(name, tokens[index..]) ==
            (if setting.None? || !Managed(name(setting.value)) then kept + group else kept) + Carried(name, tokens[index + |group|..])
  {
    var rest := tokens[index..];
    CarriedFirst(name, rest);
    assert rest[|group|..] == tokens[index + |group|..];
  }

  method CarriedSessionOptions(name: Naming, urlOptions: Option<string>) returns (kept: seq<string>)
    ensures kept == Carried(name, TokensOf(urlOptions))
  {
    if urlOptions.None? || urlOptions.value == "" { return []; }
    var tokens := Tokenize(urlOptions.value);
    kept := [];
    var index := 0;
    while index < |tokens|
      invariant index <= |tokens| && kept + Carried(name, tokens[index..]) == Carried(name, tokens)
    {
      var group, setting := Grouped(tokens, index);
      CarriedStep(name, tokens, index, group, setting, kept);
      index := index + |group|;
      if setting.None? || !Managed(name(setting.value)) { kept := kept + group; }
    }
  }

  /** The tokens of the option at `index`, and its setting if it is one. */
  method Grouped(tokens: seq<string>, index: nat) returns (group: seq<string>, setting: Option<string>)
    requires index < |tokens|
    ensures group != [] && First(tokens[index..]) == ItemOf(group, setting)
  {
    var token := tokens[index];
    group, setting := [token], None;
    if token == "-c" && index + 1 < |tokens| {
      group := [token, tokens[index + 1]];
      setting := Some(tokens[index + 1]);
      assert tokens[index..][..2] == group;
    } else if |token| >= 2 && token[..2] == "--" {
      setting := Some(token[2..]);
    } else if |token| >= 2 && token[..2] == "-c" {
      setting := Some(token[2..]);
    }
  }

  function TokensOf(urlOptions: Option<string>): seq<string> {
    if urlOptions.None? then [] else Scan(urlOptions.value, "", false)
  }

  // ---------------------------------------------------------------------------
  // The built string
  // ---------------------------------------------------------------------------

  /** The timeouts in milliseconds, in decimal. */
  datatype Timeouts = Timeouts(statement: string, idle: string)

  predicate AllDigits(s: string) {
    s != "" && forall i :: 0 <= i < |s| ==> '0' <= s[i] <= '9'
  }

  predicate Numeric(t: Timeouts) {
    AllDigits(t.statement) && AllDigits(t.idle)
  }

  function Assign(name: string, value: string): string {
    name + ['='] + value
  }

  /** The pinned settings, as tokens. */
  function Pinned(t: Timeouts): seq<string> {
    ["-c", Assign(STATEMENT, t.statement), "-c", Assign(IDLE, t.idle), "-c", Assign("TimeZone", "UTC")]
  }

  method BuildSessionOptions(name: Naming, urlOptions: Option<string>, t: Timeouts) returns (options: string)
    ensures options == Joined((if urlOptions.None? then [] else Carried(name, Scan(urlOptions.value, "", false))) + Pinned(t))
  {
    var carried := CarriedSessionOptions(name, urlOptions);
    var pinned := ["-c " + Assign(STATEMENT, t.statement), "-c " + Assign(IDLE, t.idle), "-c " + Assign("TimeZone", "UTC")];
    options := Joined(carried + pinned);
    PinnedJoins(t);
    JoinedConcat(carried, pinned);
    JoinedConcat(carried, Pinned(t));
  }

  lemma PinnedJoins(t: Timeouts)
    ensures Joined(["-c " + Assign(STATEMENT, t.statement), "-c " + Assign(IDLE, t.idle), "-c " + Assign("TimeZone", "UTC")])
            == Joined(Pinned(t))
  {
    PairsJoin("-c", Assign(STATEMENT, t.statement), Assign(IDLE, t.idle), Assign("TimeZone", "UTC"));
    assert "-c" + " " == "-c ";
  }

  lemma PairsJoin(f: string, a: string, b: string, c: string)
    ensures Joined([f + " " + a, f + " " + b, f + " " + c]) == Joined([f, a, f, b, f, c])
  {
    LastPair(f, c);
    PairFirst(f, b, [f + " " + c], [f, c]);
    assert [f + " " + b] + [f + " " + c] == [f + " " + b, f + " " + c] && [f, b] + [f, c] == [f, b, f, c];
    PairFirst(f, a, [f + " " + b, f + " " + c], [f, b, f, c]);
    assert [f + " " + a] + [f + " " + b, f + " " + c] == [f + " " + a, f + " " + b, f + " " + c];
    assert [f, a] + [f, b, f, c] == [f, a, f, b, f, c];
  }

  lemma LastPair(f: string, a: string)
    ensures Joined([f + " " + a]) == Joined([f, a])
  {
    assert [f, a][1..] == [a];
  }

  /** A flag joined with its argument beforehand, or with the rest, gives the same string. */
  lemma PairFirst(f: string, a: string, rest: seq<string>, same: seq<string>)
    requires rest != [] && same != [] && Joined(rest) == Joined(same)
    ensures Joined([f + " " + a] + rest) == Joined([f, a] + same)
  {
    assert ([f + " " + a] + rest)[1..] == rest;
    assert ([f, a] + same)[1..] == [a] + same && ([a] + same)[1..] == same;
    assert f + " " + a + " " + Joined(rest) == f + " " + (a + " " + Joined(rest));
  }

  /** Without options in the URL the built ones are the pinned settings alone. */
  lemma NothingCarried(name: Naming, t: Timeouts)
    ensures Carried(name, TokensOf(None)) + Pinned(t) ==
            ["-c", "statement_timeout=" + t.statement, "-c", "idle_in_transaction_session_timeout=" + t.idle, "-c", "TimeZone=UTC"]
  {
    assert Assign("TimeZone", "UTC") == "TimeZone=UTC";
    assert Assign(STATEMENT, t.statement) == "statement_timeout=" + t.statement;
    assert Assign(IDLE, t.idle) == "idle_in_transaction_session_timeout=" + t.idle;
  }

  /** The settings the pool keeps to itself. */
  lemma ManagedExactly(name: string)
    ensures Managed(name) <==>
            name in {"timezone", "statement_timeout", "idle_in_transaction_session_timeout", "application_name"}
  {}
}
