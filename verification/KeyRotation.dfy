/** What rotating the keys keeps: which stored MACs still verify, and which are already current. */
module KeyRotation {
  import opened Prelude
  import opened NetworkingKeys
  import opened NetworkingKeyring

  predicate WellFormedKids(ring: Ring) {
    forall k :: k in ring.keys ==> WellFormedKid(k.kid)
  }

  lemma UsableIsWellFormed(ring: Ring, kid: string, purpose: Purpose)
    requires WellFormedKids(ring) && Usable(ring, kid, purpose).Some?
    ensures WellFormedKid(kid)
  {
    FindKeyHolds(ring.keys, kid);
  }

  /** A versioned MAC names its key when the kid is well formed. */
  lemma V1MacNamesItsKey(ring: Ring, hmac: Hmac, kid: string, purpose: Purpose, value: string)
    requires HexOutput(hmac) && Usable(ring, kid, purpose).Some? && WellFormedKid(kid)
    ensures var stored := V1Mac(ring, hmac, kid, purpose, value);
            MatchV1(stored).Some? && KidOf(stored) == kid && MatchV1(stored).value.kid == kid
  {
    var payload := hmac(Derived(Usable(ring, kid, purpose).value, purpose), value);
    assert IsHex(payload);
    MatchV1Exactly(V1Text(kid, payload), kid, payload);
  }

  lemma LegacyMacIsUnversioned(ring: Ring, hmac: Hmac, purpose: Purpose, value: string)
    requires HexOutput(hmac) && Usable(ring, LEGACY_KID, purpose).Some?
    ensures MatchV1(LegacyMac(ring, hmac, purpose, value)) == None
  {
    HexIsUnversioned(LegacyMac(ring, hmac, purpose, value));
  }

  lemma MadeVerifies(ring: Ring, hmac: Hmac, kid: string, purpose: Purpose, value: string, stored: string)
    requires HexOutput(hmac) && MadeWith(ring, hmac, kid, purpose, value, stored) && WellFormedKid(kid)
    ensures Verifies(ring, hmac, purpose, value, stored)
  {
    if stored == V1Mac(ring, hmac, kid, purpose, value) {
      V1MacNamesItsKey(ring, hmac, kid, purpose, value);
    } else {
      LegacyMacIsUnversioned(ring, hmac, purpose, value);
    }
  }

  lemma VerifiedIsMade(ring: Ring, hmac: Hmac, purpose: Purpose, value: string, stored: string)
    requires Verifies(ring, hmac, purpose, value, stored)
    ensures MadeWith(ring, hmac, KidOf(stored), purpose, value, stored)
  {}

  /** The candidates to look a value up by are exactly the stored MACs that would verify. */
  method CandidatesExactly(keyring: Keyring, purpose: Purpose, value: string) returns (macs: Option<seq<string>>)
    requires keyring.Valid() && HexOutput(keyring.hmac) && UsableKidsWellFormed(keyring.ring, purpose)
    modifies keyring
    ensures keyring.Valid() && (macs.Some? <==> Configured(keyring.ring))
    ensures macs.Some? ==> forall s :: s in macs.value <==> Verifies(keyring.ring, keyring.hmac, purpose, value, s)
  {
    macs := keyring.MacCandidates(purpose, value);
    if macs.Some? {
      forall s ensures s in macs.value <==> Verifies(keyring.ring, keyring.hmac, purpose, value, s) {
        CandidateExactly(keyring.ring, keyring.hmac, purpose, value, s);
      }
    }
  }

  lemma CandidateExactly(ring: Ring, hmac: Hmac, purpose: Purpose, value: string, stored: string)
    requires HexOutput(hmac) && UsableKidsWellFormed(ring, purpose)
    ensures (exists kid :: MadeWith(ring, hmac, kid, purpose, value, stored)) <==> Verifies(ring, hmac, purpose, value, stored)
  {
    if Verifies(ring, hmac, purpose, value, stored) { VerifiedIsMade(ring, hmac, purpose, value, stored); }
    forall kid | MadeWith(ring, hmac, kid, purpose, value, stored) ensures Verifies(ring, hmac, purpose, value, stored) {
      MadeVerifies(ring, hmac, kid, purpose, value, stored);
    }
  }

  /** Every kid usable for the purpose is well formed. */
  ghost predicate UsableKidsWellFormed(ring: Ring, purpose: Purpose) {
    forall kid :: Usable(ring, kid, purpose).Some? ==> WellFormedKid(kid)
  }

  ghost predicate IsCandidate(ring: Ring, hmac: Hmac, purpose: Purpose, value: string, stored: string) {
    exists kid :: MadeWith(ring, hmac, kid, purpose, value, stored)
  }

  /** For any kids: the candidates are the texts that verify exactly when every kid usable for the
      purpose is well formed. */
  lemma CandidatesVerifyExactly(ring: Ring, hmac: Hmac, purpose: Purpose, value: string)
    requires HexOutput(hmac)
    ensures (forall s :: IsCandidate(ring, hmac, purpose, value, s) <==> Verifies(ring, hmac, purpose, value, s))
            <==> UsableKidsWellFormed(ring, purpose)
  {
    if UsableKidsWellFormed(ring, purpose) {
      forall s ensures IsCandidate(ring, hmac, purpose, value, s) <==> Verifies(ring, hmac, purpose, value, s) {
        CandidateExactly(ring, hmac, purpose, value, s);
      }
    } else {
      var kid :| Usable(ring, kid, purpose).Some? && !WellFormedKid(kid);
      MalformedKidNeverVerifies(ring, hmac, kid, purpose, value);
      assert IsCandidate(ring, hmac, purpose, value, V1Mac(ring, hmac, kid, purpose, value));
    }
  }

  /** Well-formed kids are needed: under any other kid a candidate never verifies. */
  lemma MalformedKidNeverVerifies(ring: Ring, hmac: Hmac, kid: string, purpose: Purpose, value: string)
    requires HexOutput(hmac) && Usable(ring, kid, purpose).Some? && !WellFormedKid(kid)
    ensures var stored := V1Mac(ring, hmac, kid, purpose, value);
            MadeWith(ring, hmac, kid, purpose, value, stored) && !Verifies(ring, hmac, purpose, value, stored)
  {
    var hex := hmac(Derived(Usable(ring, kid, purpose).value, purpose), value);
    var stored := V1Text(kid, hex);
    assert IsHex(hex);
    V1TextIsNotHex(kid, hex);
    if Verifies(ring, hmac, purpose, value, stored) && MatchV1(stored).Some? {
      var named := KidOf(stored);
      var other := hmac(Derived(Usable(ring, named, purpose).value, purpose), value);
      MatchV1Exactly(stored, named, MatchV1(stored).value.payload);
      SameVersionedText(kid, hex, named, other);
    }
  }

  lemma V1TextIsNotHex(kid: string, payload: string)
    ensures !IsHex(V1Text(kid, payload))
  {
    assert V1Text(kid, payload)[0] == V1[0] && !HexDigit(V1[0]);
  }

  /** The last colon of a versioned MAC ends its kid, well formed or not. */
  lemma SameVersionedText(kid: string, hex: string, other: string, otherHex: string)
    requires IsHex(hex) && IsHex(otherHex) && V1Text(kid, hex) == V1Text(other, otherHex)
    ensures kid == other && hex == otherHex
  {
    var s := kid + [':'] + hex;
    assert V1Text(kid, hex)[3..] == s && V1Text(other, otherHex)[3..] == other + [':'] + otherHex;
    assert s[|kid|] == ':' && s[|other|] == ':';
    assert forall k :: |kid| < k < |s| ==> s[k] == hex[k - |kid| - 1];
    assert forall k :: |other| < k < |s| ==> s[k] == otherHex[k - |other| - 1];
    assert |kid| == |other|;
    assert s[..|kid|] == kid && s[..|other|] == other && s[|kid| + 1..] == hex && s[|other| + 1..] == otherHex;
  }

  /** What a keyring writes, it verifies. */
  lemma WrittenVerifies(ring: Ring, hmac: Hmac, purpose: Purpose, value: string)
    requires Made(ring) && HexOutput(hmac) && WellFormedKids(ring) && Configured(ring)
    ensures Verifies(ring, hmac, purpose, value, MacOf(ring, hmac, purpose, value).value)
  {
    var kid := if ring.writesV1 then ring.current.value else LEGACY_KID;
    UsableIsWellFormed(ring, kid, purpose);
    MadeVerifies(ring, hmac, kid, purpose, value, MacOf(ring, hmac, purpose, value).value);
  }

  /** The later keyring keeps the key, with its secret, for the purpose. */
  predicate Keeps(later: Ring, kid: string, secret: string, purpose: Purpose) {
    exists k :: k in later.keys && k.kid == kid && k.secret == secret && (k.recoveryOnly ==> purpose.Recovery?)
  }

  lemma KeepsExactly(later: Ring, kid: string, secret: string, purpose: Purpose)
    requires Made(later)
    ensures Keeps(later, kid, secret, purpose) <==> Usable(later, kid, purpose) == Some(secret)
  {
    FindKeyHolds(later.keys, kid);
    if Keeps(later, kid, secret, purpose) {
      var i :| 0 <= i < |later.keys| && later.keys[i].kid == kid && later.keys[i].secret == secret
               && (later.keys[i].recoveryOnly ==> purpose.Recovery?);
      FindKeyAt(later.keys, i);
    }
  }

  /** Rotation: a MAC that verified under one keyring verifies under a later one exactly when that
      one keeps the key it names, with the same secret, for the purpose. */
  lemma SurvivesRotationExactly(ring: Ring, later: Ring, hmac: Hmac, purpose: Purpose, value: string, stored: string)
    requires Made(ring) && Made(later) && HexOutput(hmac) && Injective(hmac)
    requires Verifies(ring, hmac, purpose, value, stored)
    ensures var kid := KidOf(stored);
            Verifies(later, hmac, purpose, value, stored) <==>
            Keeps(later, kid, Usable(ring, kid, purpose).value, purpose)
  {
    var kid := KidOf(stored);
    var secret := Usable(ring, kid, purpose).value;
    KeepsExactly(later, kid, secret, purpose);
    if Verifies(later, hmac, purpose, value, stored) && MatchV1(stored).Some? {
      var other := Usable(later, kid, purpose).value;
      SameVersionedText(kid, hmac(Derived(secret, purpose), value), kid, hmac(Derived(other, purpose), value));
    }
  }

  /** In particular every MAC a keyring writes. */
  lemma WrittenSurvivesExactly(ring: Ring, later: Ring, hmac: Hmac, purpose: Purpose, value: string)
    requires Made(ring) && Made(later) && HexOutput(hmac) && Injective(hmac)
    requires WellFormedKids(ring) && Configured(ring)
    ensures var kid := if ring.writesV1 then ring.current.value else LEGACY_KID;
            Verifies(later, hmac, purpose, value, MacOf(ring, hmac, purpose, value).value) <==>
            Keeps(later, kid, FindKey(ring.keys, kid).value.secret, purpose)
  {
    WrittenVerifies(ring, hmac, purpose, value);
    WrittenNamesItsKey(ring, hmac, purpose, value);
    SurvivesRotationExactly(ring, later, hmac, purpose, value, MacOf(ring, hmac, purpose, value).value);
  }

  lemma WrittenNamesItsKey(ring: Ring, hmac: Hmac, purpose: Purpose, value: string)
    requires Made(ring) && HexOutput(hmac) && WellFormedKids(ring) && Configured(ring)
    ensures var kid := if ring.writesV1 then ring.current.value else LEGACY_KID;
            && KidOf(MacOf(ring, hmac, purpose, value).value) == kid
            && Usable(ring, kid, purpose) == Some(FindKey(ring.keys, kid).value.secret)
  {
    if ring.writesV1 {
      UsableIsWellFormed(ring, ring.current.value, purpose);
      V1MacNamesItsKey(ring, hmac, ring.current.value, purpose, value);
    } else {
      LegacyMacIsUnversioned(ring, hmac, purpose, value);
    }
  }

  /** A MAC made for one purpose with a versioned key does not verify for another. */
  lemma PurposesAreApart(ring: Ring, later: Ring, hmac: Hmac, purpose: Purpose, other: Purpose, value: string, stored: string)
    requires HexOutput(hmac) && Injective(hmac) && purpose != other && MatchV1(stored).Some?
    requires Verifies(ring, hmac, purpose, value, stored)
    ensures !Verifies(later, hmac, other, value, stored)
  {
    if Verifies(later, hmac, other, value, stored) {
      var kid := KidOf(stored);
      SameVersionedText(kid, hmac(Derived(Usable(ring, kid, purpose).value, purpose), value),
                        kid, hmac(Derived(Usable(later, kid, other).value, other), value));
    }
  }

  /** Of the MACs that verify, exactly the one that would be written now needs no rehash. */
  lemma CurrentExactly(ring: Ring, hmac: Hmac, purpose: Purpose, value: string, stored: string)
    requires Made(ring) && HexOutput(hmac) && WellFormedKids(ring) && Configured(ring)
    requires Verifies(ring, hmac, purpose, value, stored)
    ensures IsCurrent(ring, stored) <==> Some(stored) == MacOf(ring, hmac, purpose, value)
  {
    if ring.writesV1 {
      UsableIsWellFormed(ring, ring.current.value, purpose);
      V1MacNamesItsKey(ring, hmac, ring.current.value, purpose, value);
    } else {
      LegacyMacIsUnversioned(ring, hmac, purpose, value);
    }
  }

  /** What a keyring built from settings writes: nothing without keys; the versioned form under the first
      configured key (the legacy one if there is no other) once versions are on or there is no legacy key
      to write with; else the plain form under the legacy secret. */
  lemma SettingsWrite(s: Settings, hmac: Hmac, purpose: Purpose, value: string)
    requires Made(RingOf(s)) && forall k :: k in s.keys ==> k.kid != ""
    ensures var legacy := s.legacySecret != "" || exists k :: k in s.keys && k.kid == "legacy" && !k.recoveryOnly;
            MacOf(RingOf(s), hmac, purpose, value) ==
            if s.keys == [] && s.legacySecret == "" then None
            else if !s.writeV1 && legacy then Some(hmac(Secret(LegacySecretOf(s)), value))
            else
              var first := if s.keys != [] then s.keys[0] else Key("legacy", s.legacySecret, false);
              Some("v1:" + (first.kid + ":" + hmac(Derived(first.secret, purpose), value)))
  {
    var all := AllKeys(s);
    FindKeyHolds(all, LEGACY_KID);
    if all != [] { FindKeyAt(all, 0); }
    LegacyFound(s);
  }

  /** The one secret kept under the kid `legacy`. */
  function LegacySecretOf(s: Settings): string {
    if s.legacySecret != "" then s.legacySecret
    else match FindKey(s.keys, "legacy")
         case Some(key) => key.secret
         case None => ""
  }

  lemma LegacyFound(s: Settings)
    requires Made(RingOf(s))
    ensures var found := FindKey(AllKeys(s), LEGACY_KID);
            && (found.Some? && !found.value.recoveryOnly <==>
                  s.legacySecret != "" || exists k :: k in s.keys && k.kid == "legacy" && !k.recoveryOnly)
            && (found.Some? ==> found.value.secret == LegacySecretOf(s))
  {
    var all := AllKeys(s);
    FindKeyHolds(s.keys, LEGACY_KID);
    if s.legacySecret != "" {
      FindKeyAt(all, |s.keys|);
    } else {
      assert all == s.keys;
      if k :| k in s.keys && k.kid == "legacy" && !k.recoveryOnly {
        var i :| 0 <= i < |s.keys| && s.keys[i] == k;
        FindKeyAt(all, i);
      }
    }
  }

  /** A configured key list makes a keyring all of this applies to. */
  method KeyringFromText(text: string, hmac: Hmac) returns (r: Option<Keyring>)
    ensures r.Some? <==> exists list :: ValidList(list) && Written(list, Entries(text))
    ensures r.Some? ==> fresh(r.value) && r.value.Valid() && r.value.hmac == hmac
                        && Configured(r.value.ring) && WellFormedKids(r.value.ring) && Written(r.value.ring.keys, Entries(text))
                        && ValidList(r.value.ring.keys)
  {
    var parsed := ParseNetworkingKeys(text);
    match parsed {
      case Err(_) => r := None;
      case Ok(keys) =>
        var settings := Settings(keys, "", true);
        assert AllKeys(settings) == keys;
        r := NewKeyring(settings, hmac);
    }
  }
}
