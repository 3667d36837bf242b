/** MACs that name the key they were made with, so that keys can rotate. */
module NetworkingKeyring {
  import opened Prelude
  import opened JsText
  import opened NetworkingKeys
  import opened Sequences

  datatype Purpose = Session | Otp | Badge | Seal | Recovery

  function NameOf(purpose: Purpose): string {
    match purpose
    case Session => "session"
    case Otp => "otp"
    case Badge => "badge"
    case Seal => "seal"
    case Recovery => "recovery"
  }

  /** What a MAC is keyed by: a configured secret, or the key derived from it for one purpose. */
  datatype Material = Secret(secret: string) | Derived(secret: string, purpose: Purpose)

  type Hmac = (Material, string) -> string

  predicate HexDigit(c: char) {
    '0' <= c <= '9' || 'a' <= c <= 'f'
  }

  predicate IsHex(s: string) {
    s != "" && forall i :: 0 <= i < |s| ==> HexDigit(s[i])
  }

  ghost predicate HexOutput(hmac: Hmac) {
    forall m, v :: IsHex(hmac(m, v))
  }

  /** No two keys give one text the same MAC. */
  ghost predicate Injective(hmac: Hmac) {
    forall m, n, v :: hmac(m, v) == hmac(n, v) ==> m == n
  }

  // ---------------------------------------------------------------------------
  // The versioned form
  // ---------------------------------------------------------------------------

  datatype Match = Match(kid: string, payload: string)

  const V1 := "v1:"

  function V1Text(kid: string, payload: string): string {
    V1 + (kid + [':'] + payload)
  }

  /** `v1:<kid>:<payload>` with a well-formed kid and something after it. */
  function MatchV1(stored: string): Option<Match> {
    if |stored| >= 3 && stored[..3] == V1 then
      var rest := stored[3..];
      var i := IndexOf(rest, ':');
      if i + 1 < |rest| && WellFormedKid(rest[..i]) then Some(Match(rest[..i], rest[i + 1..])) else None
    else None
  }

  function KidOf(stored: string): string {
    match MatchV1(stored)
    case Some(m) => m.kid
    case None => LEGACY_KID
  }

  /** A text matches as a kid and a payload exactly when it is their versioned form. */
  lemma MatchV1Exactly(stored: string, kid: string, payload: string)
    ensures MatchV1(stored) == Some(Match(kid, payload)) <==>
            WellFormedKid(kid) && payload != "" && stored == V1Text(kid, payload)
  {
    if MatchV1(stored) == Some(Match(kid, payload)) {
      var rest := stored[3..];
      IndexOfHolds(rest, ':');
      assert rest == kid + [':'] + payload;
      assert stored == stored[..3] + rest;
    }
    if WellFormedKid(kid) && payload != "" && stored == V1Text(kid, payload) {
      var rest := kid + [':'] + payload;
      assert stored[..3] == V1 && stored[3..] == rest;
      KidHasNoColon(kid);
      IndexAfter(kid, ':', payload);
      assert rest[..|kid|] == kid && rest[|kid| + 1..] == payload;
    }
  }

  lemma HexIsUnversioned(s: string)
    requires IsHex(s)
    ensures MatchV1(s) == None
  {
    assert HexDigit(s[0]) && !HexDigit(V1[0]);
  }

  // ---------------------------------------------------------------------------
  // The keyring
  // ---------------------------------------------------------------------------

  function FindKey(keys: seq<Key>, kid: string): Option<Key> {
    if keys == [] then None else if keys[0].kid == kid then Some(keys[0]) else FindKey(keys[1..], kid)
  }

  lemma {:induction false} FindKeyHolds(keys: seq<Key>, kid: string)
    ensures FindKey(keys, kid).Some? ==> FindKey(keys, kid).value in keys && FindKey(keys, kid).value.kid == kid
    ensures FindKey(keys, kid).None? ==> kid !in Kids(keys)
  {
    if keys != [] {
      FindKeyHolds(keys[1..], kid);
      assert Kids(keys) == [keys[0].kid] + Kids(keys[1..]);
    }
  }

  lemma {:induction false} FindKeyAt(keys: seq<Key>, i: nat)
    requires i < |keys| && Distinct(Kids(keys))
    ensures FindKey(keys, keys[i].kid) == Some(keys[i])
  {
    if i > 0 {
      assert Kids(keys)[0] != Kids(keys)[i];
      assert Kids(keys[1..]) == Kids(keys)[1..];
      FindKeyAt(keys[1..], i - 1);
    }
  }

  datatype Ring = Ring(keys: seq<Key>, current: Option<string>, writesV1: bool)

  /** An empty kid counts as none. */
  predicate Configured(ring: Ring) {
    ring.current.Some? && ring.current.value != ""
  }

  /** The secret a key gives to a purpose: recovery-only keys serve recovery alone. */
  function Usable(ring: Ring, kid: string, purpose: Purpose): Option<string> {
    match FindKey(ring.keys, kid)
    case None => None
    case Some(key) => if key.recoveryOnly && !purpose.Recovery? then None else Some(key.secret)
  }

  predicate HasFullKey(keys: seq<Key>, kid: string) {
    FindKey(keys, kid).Some? && !FindKey(keys, kid).value.recoveryOnly
  }

  /** What the constructor establishes. */
  predicate Made(ring: Ring) {
    && Distinct(Kids(ring.keys))
    && (Configured(ring) ==> HasFullKey(ring.keys, ring.current.value))
    && (!ring.writesV1 ==> HasFullKey(ring.keys, LEGACY_KID))
  }

  function V1Mac(ring: Ring, hmac: Hmac, kid: string, purpose: Purpose, value: string): (r: string)
    requires Usable(ring, kid, purpose).Some?
  {
    V1Text(kid, hmac(Derived(Usable(ring, kid, purpose).value, purpose), value))
  }

  function LegacyMac(ring: Ring, hmac: Hmac, purpose: Purpose, value: string): string
    requires Usable(ring, LEGACY_KID, purpose).Some?
  {
    hmac(Secret(Usable(ring, LEGACY_KID, purpose).value), value)
  }

  /** The MAC a new value is written with. */
  function MacOf(ring: Ring, hmac: Hmac, purpose: Purpose, value: string): Option<string>
    requires Made(ring)
  {
    if !Configured(ring) then None
    else if ring.writesV1 then Some(V1Mac(ring, hmac, ring.current.value, purpose, value))
    else Some(LegacyMac(ring, hmac, purpose, value))
  }

  /** A stored MAC is checked with the key it names. */
  predicate Verifies(ring: Ring, hmac: Hmac, purpose: Purpose, value: string, stored: string) {
    var kid := KidOf(stored);
    && Usable(ring, kid, purpose).Some?
    && stored == if MatchV1(stored).Some? then V1Mac(ring, hmac, kid, purpose, value) else LegacyMac(ring, hmac, purpose, value)
  }

  /** A MAC some usable key could have given the value, in either form. */
  predicate MadeWith(ring: Ring, hmac: Hmac, kid: string, purpose: Purpose, value: string, stored: string) {
    && Usable(ring, kid, purpose).Some?
    && (stored == V1Mac(ring, hmac, kid, purpose, value)
        || (kid == LEGACY_KID && stored == LegacyMac(ring, hmac, purpose, value)))
  }

  predicate IsCurrent(ring: Ring, stored: string) {
    if ring.writesV1 then MatchV1(stored).Some? && ring.current == Some(MatchV1(stored).value.kid) else MatchV1(stored).None?
  }

  // ---------------------------------------------------------------------------
  // The keyring object and its cache of derived keys
  // ---------------------------------------------------------------------------

  const NUL := '\U{0}'

  function CacheKey(kid: string, purpose: Purpose): string {
    kid + [NUL] + NameOf(purpose)
  }

  lemma NamesDiffer(p: Purpose, q: Purpose)
    ensures NameOf(p) == NameOf(q) ==> p == q
    ensures NUL !in NameOf(p)
  {
    assert |NameOf(Session)| == 7 && |NameOf(Otp)| == 3 && |NameOf(Badge)| == 5 && |NameOf(Seal)| == 4 && |NameOf(Recovery)| == 8;
  }

  /** One cache entry per kid and purpose, whatever the kid. */
  lemma CacheKeyInjective(kid: string, p: Purpose, other: string, q: Purpose)
    requires CacheKey(kid, p) == CacheKey(other, q)
    ensures kid == other && p == q
  {
    NamesDiffer(p, q);
    NamesDiffer(q, p);
    LastSeparator(kid, NameOf(p), other, NameOf(q));
  }

  lemma LastSeparator(a: string, m: string, b: string, n: string)
    requires NUL !in m && NUL !in n && a + [NUL] + m == b + [NUL] + n
    ensures a == b && m == n
  {
    var s := a + [NUL] + m;
    assert s == b + [NUL] + n;
    assert s[|a|] == NUL && s[|b|] == NUL;
    assert forall k :: |a| < k < |s| ==> s[k] == m[k - |a| - 1];
    assert forall k :: |b| < k < |s| ==> s[k] == n[k - |b| - 1];
    assert |a| == |b|;
    assert s[..|a|] == a && s[..|b|] == b && s[|a| + 1..] == m && s[|b| + 1..] == n;
  }

  class Keyring {
    const ring: Ring
    const hmac: Hmac
    var subkeys: map<string, Material>

    /** Cached keys are the ones that would be derived now, for keys usable now. */
    ghost predicate Valid()
      reads this
    {
      && Made(ring)
      && forall kid, p :: CacheKey(kid, p) in subkeys ==>
                            Usable(ring, kid, p).Some? && subkeys[CacheKey(kid, p)] == Derived(Usable(ring, kid, p).value, p)
    }

    constructor (ring: Ring, hmac: Hmac)
      requires Made(ring)
      ensures Valid() && this.ring == ring && this.hmac == hmac
    {
      this.ring := ring;
      this.hmac := hmac;
      subkeys := map[];
    }

    /** None when the key is not available for the purpose. */
    method Subkey(kid: string, purpose: Purpose) returns (subkey: Option<Material>)
      requires Valid()
      modifies this
      ensures Valid()
      ensures subkey == match Usable(ring, kid, purpose)
                        case None => None
                        case Some(secret) => Some(Derived(secret, purpose))
    {
      var cacheKey := CacheKey(kid, purpose);
      if cacheKey in subkeys { return Some(subkeys[cacheKey]); }
      var secret := Usable(ring, kid, purpose);
      if secret.None? { return None; }
      subkey := Some(Derived(secret.value, purpose));
      forall other, p | CacheKey(other, p) == cacheKey ensures other == kid && p == purpose {
        CacheKeyInjective(other, p, kid, purpose);
      }
      subkeys := subkeys[cacheKey := subkey.value];
    }

    method Mac(purpose: Purpose, value: string) returns (mac: Option<string>)
      requires Valid()
      modifies this
      ensures Valid() && mac == MacOf(ring, hmac, purpose, value)
    {
      if !Configured(ring) { return None; }
      var kid := ring.current.value;
      if !ring.writesV1 { return Some(hmac(Secret(FindKey(ring.keys, LEGACY_KID).value.secret), value)); }
      var subkey := Subkey(kid, purpose);
      mac := Some(V1Text(kid, hmac(subkey.value, value)));
    }

    /** The MACs to look a value up by: the current one first, then every other that a usable key
        could have given, each once. */
    method MacCandidates(purpose: Purpose, value: string) returns (macs: Option<seq<string>>)
      requires Valid()
      modifies this
      ensures Valid()
      ensures macs.Some? <==> Configured(ring)
      ensures macs.Some? ==> Distinct(macs.value) && macs.value != [] && Some(macs.value[0]) == MacOf(ring, hmac, purpose, value)
      ensures macs.Some? ==> forall s :: s in macs.value <==> exists kid :: MadeWith(ring, hmac, kid, purpose, value, s)
    {
      var current := Mac(purpose, value);
      if current.None? { return None; }
      var found := [current.value];
      CurrentIsMade(ring, hmac, purpose, value);
      for i := 0 to |ring.keys|
        invariant Valid() && Distinct(found) && found != [] && found[0] == current.value
        invariant AllMade(ring, hmac, purpose, value, found) && Covers(ring, hmac, purpose, value, found, i)
      {
        var kid := ring.keys[i].kid;
        var secret := Usable(ring, kid, purpose);
        ghost var before := found;
        if secret.Some? {
          var subkey := Subkey(kid, purpose);
          var v1 := V1Text(kid, hmac(subkey.value, value));
          AddedIsMade(ring, hmac, kid, purpose, value, found, v1);
          found := Added(found, v1);
          if kid == LEGACY_KID {
            var plain := hmac(Secret(secret.value), value);
            AddedIsMade(ring, hmac, kid, purpose, value, found, plain);
            found := Added(found, plain);
          }
        }
        CoversOneMore(ring, hmac, purpose, value, before, found, i);
      }
      CoversAll(ring, hmac, purpose, value, found);
      macs := Some(found);
    }

    method VerifyMac(purpose: Purpose, value: string, stored: string) returns (valid: bool)
      requires Valid()
      modifies this
      ensures Valid() && (valid <==> Verifies(ring, hmac, purpose, value, stored))
    {
      var parts := MatchV1(stored);
      var kid := KidOf(stored);
      var secret := Usable(ring, kid, purpose);
      if secret.None? { return false; }
      var expected: string;
      if parts.Some? {
        var subkey := Subkey(kid, purpose);
        expected := V1Text(kid, hmac(subkey.value, value));
      } else {
        expected := hmac(Secret(secret.value), value);
      }
      valid := expected == stored;
    }
  }

  /** `candidates.add`. */
  function Added(xs: seq<string>, x: string): (r: seq<string>)
    requires Distinct(xs)
    ensures Distinct(r) && xs <= r && forall s :: s in r <==> s in xs || s == x
  {
    if x in xs then xs else xs + [x]
  }

  ghost predicate AllMade(ring: Ring, hmac: Hmac, purpose: Purpose, value: string, found: seq<string>) {
    forall s :: s in found ==> exists kid :: MadeWith(ring, hmac, kid, purpose, value, s)
  }

  /** All that the first keys could have given is found. */
  ghost predicate Covers(ring: Ring, hmac: Hmac, purpose: Purpose, value: string, found: seq<string>, keys: nat)
    requires keys <= |ring.keys|
  {
    forall j, s :: 0 <= j < keys && MadeWith(ring, hmac, ring.keys[j].kid, purpose, value, s) ==> s in found
  }

  lemma CoversOneMore(ring: Ring, hmac: Hmac, purpose: Purpose, value: string, before: seq<string>, found: seq<string>, i: nat)
    requires i < |ring.keys| && Covers(ring, hmac, purpose, value, before, i) && before <= found
    requires var kid := ring.keys[i].kid;
             Usable(ring, kid, purpose).Some? ==>
               && V1Mac(ring, hmac, kid, purpose, value) in found
               && (kid == LEGACY_KID ==> LegacyMac(ring, hmac, purpose, value) in found)
    ensures Covers(ring, hmac, purpose, value, found, i + 1)
  {
    forall j, s | 0 <= j < i + 1 && MadeWith(ring, hmac, ring.keys[j].kid, purpose, value, s) ensures s in found {
      if j < i { assert s in before; }
    }
  }

  lemma AddedIsMade(ring: Ring, hmac: Hmac, kid: string, purpose: Purpose, value: string, found: seq<string>, s: string)
    requires AllMade(ring, hmac, purpose, value, found) && Distinct(found)
    requires MadeWith(ring, hmac, kid, purpose, value, s)
    ensures AllMade(ring, hmac, purpose, value, Added(found, s))
  {}

  lemma CoversAll(ring: Ring, hmac: Hmac, purpose: Purpose, value: string, found: seq<string>)
    requires Covers(ring, hmac, purpose, value, found, |ring.keys|)
    ensures forall kid, s :: MadeWith(ring, hmac, kid, purpose, value, s) ==> s in found
  {
    forall kid, s | MadeWith(ring, hmac, kid, purpose, value, s) ensures s in found {
      FindKeyHolds(ring.keys, kid);
      var j :| 0 <= j < |ring.keys| && ring.keys[j] == FindKey(ring.keys, kid).value;
    }
  }

  lemma CurrentIsMade(ring: Ring, hmac: Hmac, purpose: Purpose, value: string)
    requires Made(ring) && Configured(ring)
    ensures exists kid :: MadeWith(ring, hmac, kid, purpose, value, MacOf(ring, hmac, purpose, value).value)
  {
    var kid := if ring.writesV1 then ring.current.value else LEGACY_KID;
    assert MadeWith(ring, hmac, kid, purpose, value, MacOf(ring, hmac, purpose, value).value);
  }

  // ---------------------------------------------------------------------------
  // Building a keyring from its settings
  // ---------------------------------------------------------------------------

  datatype Settings = Settings(keys: seq<Key>, legacySecret: string, writeV1: bool)

  /** The configured keys, the legacy secret last when there is one. */
  function AllKeys(s: Settings): seq<Key> {
    s.keys + if s.legacySecret == "" then [] else [Key(LEGACY_KID, s.legacySecret, false)]
  }

  function CurrentKid(s: Settings): Option<string> {
    if s.keys != [] then Some(s.keys[0].kid) else if s.legacySecret != "" then Some(LEGACY_KID) else None
  }

  function RingOf(s: Settings): Ring {
    var legacy := FindKey(AllKeys(s), LEGACY_KID);
    Ring(AllKeys(s), CurrentKid(s), s.writeV1 || legacy.None? || legacy.value.recoveryOnly)
  }

  /** Refused exactly when a kid is listed twice (the legacy one included) or the current key is
      kept for recovery only. */
  method NewKeyring(s: Settings, hmac: Hmac) returns (r: Option<Keyring>)
    ensures r.None? <==> !Distinct(Kids(AllKeys(s))) || (Configured(RingOf(s)) && s.keys != [] && s.keys[0].recoveryOnly)
    ensures r.Some? ==> fresh(r.value) && r.value.Valid() && r.value.ring == RingOf(s) && r.value.hmac == hmac
  {
    var keys: seq<Key> := [];
    assert Kids(keys) == [];
    for i := 0 to |s.keys|
      invariant keys == s.keys[..i] && Distinct(Kids(keys))
    {
      FindKeyHolds(keys, s.keys[i].kid);
      if FindKey(keys, s.keys[i].kid).Some? {
        SeenBefore(s, i);
        return None;
      }
      assert Kids(keys + [s.keys[i]]) == Kids(keys) + [s.keys[i].kid];
      keys := keys + [s.keys[i]];
    }
    assert keys == s.keys;
    if s.legacySecret != "" {
      FindKeyHolds(keys, LEGACY_KID);
      if FindKey(keys, LEGACY_KID).Some? {
        LegacySeenBefore(s);
        return None;
      }
      var legacy := Key(LEGACY_KID, s.legacySecret, false);
      assert Kids(keys + [legacy]) == Kids(keys) + [LEGACY_KID];
      keys := keys + [legacy];
    }
    assert keys == AllKeys(s);
    var current := CurrentKid(s);
    if keys != [] { FindKeyAt(keys, 0); }
    if current.Some? && current.value != "" && FindKey(keys, current.value).Some? && FindKey(keys, current.value).value.recoveryOnly {
      return None;
    }
    var made := new Keyring(RingOf(s), hmac);
    r := Some(made);
  }

  lemma SeenBefore(s: Settings, i: nat)
    requires i < |s.keys| && FindKey(s.keys[..i], s.keys[i].kid).Some?
    ensures !Distinct(Kids(AllKeys(s)))
  {
    FindKeyHolds(s.keys[..i], s.keys[i].kid);
    var j :| 0 <= j < i && s.keys[..i][j].kid == s.keys[i].kid;
    assert Kids(AllKeys(s))[j] == Kids(AllKeys(s))[i];
  }

  lemma LegacySeenBefore(s: Settings)
    requires s.legacySecret != "" && FindKey(s.keys, LEGACY_KID).Some?
    ensures !Distinct(Kids(AllKeys(s)))
  {
    FindKeyHolds(s.keys, LEGACY_KID);
    var j :| 0 <= j < |s.keys| && s.keys[j].kid == LEGACY_KID;
    assert Kids(AllKeys(s))[j] == Kids(AllKeys(s))[|s.keys|];
  }
}
