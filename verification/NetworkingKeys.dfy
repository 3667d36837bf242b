/** The list of networking keys as it is configured: `kid:key` or `kid:key:recovery`, comma-separated. */
module NetworkingKeys {
  import opened JsText
  import opened Sequences

  datatype Key = Key(kid: string, secret: string, recoveryOnly: bool)

  const LEGACY_KID := "legacy"
  const KEY_MIN_LENGTH := 32

  datatype KeysError = NoEntries | BadKid(at: nat) | ListedTwice(kid: string) | ShortKey(kid: string)
                     | BadForm(kid: string) | CurrentRecoveryOnly

  datatype Parsed<T> = Ok(value: T) | Err(error: KeysError)

  predicate KidStart(c: char) {
    'a' <= c <= 'z' || '0' <= c <= '9'
  }

  predicate WellFormedKid(kid: string) {
    1 <= |kid| <= 16 && KidStart(kid[0]) && forall i :: 1 <= i < |kid| ==> KidStart(kid[i]) || kid[i] == '_' || kid[i] == '-'
  }

  lemma KidHasNoColon(kid: string)
    requires WellFormedKid(kid)
    ensures ':' !in kid
  {}

  /** The trimmed, non-empty pieces between commas. */
  function Entries(value: string): seq<string> {
    Filter((e: string) => e != "", TrimAll(Split(value, ',')))
  }

  function TrimAll(parts: seq<string>): seq<string> {
    if parts == [] then [] else [Trim(parts[0])] + TrimAll(parts[1..])
  }

  lemma {:induction false} SplitOfJoined(parts: seq<string>, c: char)
    requires parts != [] && forall i :: 0 <= i < |parts| ==> c !in parts[i]
    ensures Split(Join(parts, c), c) == parts
  {
    if |parts| == 1 {
      SplitFirst(parts[0], c, "");
      assert parts == [parts[0]];
    } else {
      SplitOfJoined(parts[1..], c);
      SplitFirst(parts[0], c, Join(parts[1..], c));
      assert parts == [parts[0]] + parts[1..];
    }
  }

  lemma {:induction false} TrimAllAt(parts: seq<string>)
    ensures |TrimAll(parts)| == |parts| && forall i :: 0 <= i < |parts| ==> TrimAll(parts)[i] == Trim(parts[i])
  {
    if parts != [] { TrimAllAt(parts[1..]); }
  }

  /** However the entries are spaced and however many empty pieces stand between them, the list read is
      that of the trimmed pieces that are not empty. */
  lemma EntriesOfJoined(parts: seq<string>)
    requires parts != [] && forall i :: 0 <= i < |parts| ==> ',' !in parts[i]
    ensures forall e :: e in Entries(Join(parts, ',')) <==> e != "" && e in TrimAll(parts)
    ensures |TrimAll(parts)| == |parts| && forall i :: 0 <= i < |parts| ==> TrimAll(parts)[i] == Trim(parts[i])
  {
    SplitOfJoined(parts, ',');
    TrimAllAt(parts);
    FilterHolds((e: string) => e != "", TrimAll(parts));
  }

  /** And pieces that are trimmed and not empty come back as they were. */
  lemma CleanEntriesStay(parts: seq<string>)
    requires parts != [] && forall i :: 0 <= i < |parts| ==> ',' !in parts[i] && Trim(parts[i]) == parts[i] != ""
    ensures Entries(Join(parts, ',')) == parts
  {
    SplitOfJoined(parts, ',');
    TrimAllSame(parts);
    FilterAll((e: string) => e != "", parts);
  }

  lemma TrimAllSame(parts: seq<string>)
    requires forall i :: 0 <= i < |parts| ==> Trim(parts[i]) == parts[i]
    ensures TrimAll(parts) == parts
  {
    TrimAllAt(parts);
  }

  /** How a key is written. */
  function TextOf(key: Key): string {
    key.kid + [':'] + if key.recoveryOnly then key.secret + [':'] + "recovery" else key.secret
  }

  predicate ValidKey(key: Key) {
    WellFormedKid(key.kid) && |key.secret| >= KEY_MIN_LENGTH && ':' !in key.secret
  }

  /** One entry on its own, in the order its parts are checked. */
  function ParseEntry(entry: string, index: nat, seen: seq<string>): Parsed<Key> {
    var parts := Split(entry, ':');
    var kid, secret := parts[0], if |parts| > 1 then parts[1] else "";
    if !WellFormedKid(kid) then Err(BadKid(index + 1))
    else if kid in seen then Err(ListedTwice(kid))
    else if |secret| < KEY_MIN_LENGTH then Err(ShortKey(kid))
    else if |parts| > 3 || (|parts| == 3 && parts[2] != "recovery") then Err(BadForm(kid))
    else if index == 0 && |parts| == 3 then Err(CurrentRecoveryOnly)
    else Ok(Key(kid, secret, |parts| == 3))
  }

  /** An accepted entry is exactly the text of the key it gives. */
  lemma ParsedIsItsText(entry: string, index: nat, seen: seq<string>)
    requires ParseEntry(entry, index, seen).Ok?
    ensures var key := ParseEntry(entry, index, seen).value;
            ValidKey(key) && TextOf(key) == entry && key.kid !in seen && !(index == 0 && key.recoveryOnly)
  {
    var parts := Split(entry, ':');
    SplitJoins(entry, ':');
    if |parts| > 1 {
      assert parts[1] in parts;
      assert Join(parts, ':') == parts[0] + [':'] + Join(parts[1..], ':');
      if |parts| == 3 { assert Join(parts[1..], ':') == parts[1] + [':'] + Join(parts[2..], ':'); }
    }
  }

  lemma PartsOf(kid: string, secret: string, flag: string)
    requires ':' !in kid && ':' !in secret && ':' !in flag
    ensures Split(kid + [':'] + secret, ':') == [kid, secret]
    ensures Split(kid + [':'] + (secret + [':'] + flag), ':') == [kid, secret, flag]
  {
    SplitFirst(kid, ':', secret);
    SplitFirst(kid, ':', secret + [':'] + flag);
    SplitFirst(secret, ':', flag);
    SplitFirst(flag, ':', "");
  }

  /** And the text of every valid key is accepted, as that key. */
  lemma TextIsParsed(key: Key, index: nat, seen: seq<string>)
    requires ValidKey(key) && key.kid !in seen && !(index == 0 && key.recoveryOnly)
    ensures ParseEntry(TextOf(key), index, seen) == Ok(key)
  {
    KidHasNoColon(key.kid);
    PartsOf(key.kid, key.secret, "recovery");
  }

  function Kids(keys: seq<Key>): seq<string> {
    seq(|keys|, i requires 0 <= i < |keys| => keys[i].kid)
  }

  /** A usable key list: valid keys, no kid twice, the first one not kept for recovery only. */
  predicate ValidList(keys: seq<Key>) {
    keys != [] && ValidPrefix(keys)
  }

  predicate ValidPrefix(keys: seq<Key>) {
    && (forall i :: 0 <= i < |keys| ==> ValidKey(keys[i]))
    && Distinct(Kids(keys)) && (keys != [] ==> !keys[0].recoveryOnly)
  }

  predicate Written(keys: seq<Key>, entries: seq<string>) {
    |keys| == |entries| && forall i :: 0 <= i < |keys| ==> TextOf(keys[i]) == entries[i]
  }

  lemma TextDeterminesKey(a: Key, b: Key)
    requires ValidKey(a) && ValidKey(b) && TextOf(a) == TextOf(b)
    ensures a == b
  {
    TextIsParsed(a, 1, []);
    TextIsParsed(b, 1, []);
  }

  /** The keys of the first `|keys|` entries. */
  predicate ReadSoFar(keys: seq<Key>, entries: seq<string>) {
    |keys| <= |entries| && Written(keys, entries[..|keys|]) && ValidPrefix(keys)
  }

  lemma OneMoreKey(keys: seq<Key>, entries: seq<string>)
    requires |keys| < |entries| && ReadSoFar(keys, entries)
    requires ParseEntry(entries[|keys|], |keys|, Kids(keys)).Ok?
    ensures var more := keys + [ParseEntry(entries[|keys|], |keys|, Kids(keys)).value];
            ReadSoFar(more, entries) && Kids(more) == Kids(keys) + [more[|keys|].kid]
  {
    ParsedIsItsText(entries[|keys|], |keys|, Kids(keys));
    var key := ParseEntry(entries[|keys|], |keys|, Kids(keys)).value;
    assert Kids(keys + [key]) == Kids(keys) + [key.kid];
  }

  /** Any valid list written like this has the keys parsed so far, and its next key parses. */
  lemma NextMustParse(entries: seq<string>, keys: seq<Key>, list: seq<Key>)
    requires |keys| < |entries| && ReadSoFar(keys, entries)
    requires ValidList(list) && Written(list, entries)
    ensures ParseEntry(entries[|keys|], |keys|, Kids(keys)).Ok?
  {
    forall i | 0 <= i < |keys| ensures keys[i] == list[i] {
      assert TextOf(keys[i]) == entries[..|keys|][i] == TextOf(list[i]);
      TextDeterminesKey(keys[i], list[i]);
    }
    var next := list[|keys|];
    forall i | 0 <= i < |keys| ensures Kids(keys)[i] != next.kid {
      assert Kids(list)[i] != Kids(list)[|keys|];
    }
    TextIsParsed(next, |keys|, Kids(keys));
  }

  lemma NoListReads(entries: seq<string>, keys: seq<Key>)
    requires |keys| < |entries| && ReadSoFar(keys, entries)
    requires ParseEntry(entries[|keys|], |keys|, Kids(keys)).Err?
    ensures !exists list :: ValidList(list) && Written(list, entries)
  {
    forall list | ValidList(list) && Written(list, entries) ensures false { NextMustParse(entries, keys, list); }
  }

  /** What is wrong with the entry at `i`, told from its parts; `None` where nothing is. */
  predicate Faulty(entries: seq<string>, error: KeysError, i: nat)
    requires i < |entries|
  {
    var parts := Split(entries[i], ':');
    match error
    case NoEntries => false
    case BadKid(at) => at == i + 1 && !WellFormedKid(parts[0])
    case ListedTwice(kid) => parts[0] == kid && exists j :: 0 <= j < i && Split(entries[j], ':')[0] == kid
    case ShortKey(kid) => parts[0] == kid && (|parts| == 1 || |parts[1]| < 32)
    case BadForm(kid) => parts[0] == kid && (|parts| > 3 || (|parts| == 3 && parts[2] != "recovery"))
    case CurrentRecoveryOnly => i == 0 && |parts| == 3 && parts[2] == "recovery"
  }

  lemma EntryFault(keys: seq<Key>, entries: seq<string>)
    requires |keys| < |entries| && ReadSoFar(keys, entries) && ParseEntry(entries[|keys|], |keys|, Kids(keys)).Err?
    ensures Faulty(entries, ParseEntry(entries[|keys|], |keys|, Kids(keys)).error, |keys|)
  {
    var error := ParseEntry(entries[|keys|], |keys|, Kids(keys)).error;
    if error.ListedTwice? {
      var j :| 0 <= j < |keys| && Kids(keys)[j] == error.kid;
      KidHasNoColon(keys[j].kid);
      PartsOf(keys[j].kid, keys[j].secret, "recovery");
      assert TextOf(keys[j]) == entries[j];
    }
  }

  /** Accepts exactly the texts of usable key lists, and gives back that list; a refusal names a fault of
      one of the entries. */
  method ParseNetworkingKeys(value: string) returns (r: Parsed<seq<Key>>)
    ensures r.Ok? ==> ValidList(r.value) && Written(r.value, Entries(value))
    ensures r.Err? ==> !exists list :: ValidList(list) && Written(list, Entries(value))
    ensures r.Err? ==> if Entries(value) == [] then r.error == NoEntries
                       else exists i :: 0 <= i < |Entries(value)| && Faulty(Entries(value), r.error, i)
  {
    var entries := Entries(value);
    if entries == [] { return Err(NoEntries); }
    var keys: seq<Key>, seen: seq<string> := [], [];
    for index := 0 to |entries|
      invariant |keys| == index && ReadSoFar(keys, entries) && seen == Kids(keys)
    {
      var key := ParseEntry(entries[index], index, seen);
      match key {
        case Err(error) =>
          NoListReads(entries, keys);
          EntryFault(keys, entries);
          return Err(error);
        case Ok(k) =>
          OneMoreKey(keys, entries);
          keys := keys + [k];
          seen := seen + [k.kid];
      }
    }
    assert entries[..|keys|] == entries;
    r := Ok(keys);
  }

  /** What makes a key usable, spelled out. */
  lemma ValidKeyMeans(key: Key)
    ensures ValidKey(key) <==>
            && 1 <= |key.kid| <= 16 && key.kid[0] != '_' && key.kid[0] != '-'
            && (forall i :: 0 <= i < |key.kid| ==> 'a' <= key.kid[i] <= 'z' || '0' <= key.kid[i] <= '9' || key.kid[i] == '_' || key.kid[i] == '-')
            && |key.secret| >= 32 && ':' !in key.secret
  {}
}
