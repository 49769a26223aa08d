/** Sealing a customer's credential, and rotating the keys that do it. */
module Keyring {
  import opened Wrappers
  import opened Text
  import opened Base64

  const KEY_BYTES := 32
  const NONCE_BYTES := 12

  /** Padded base64, or raw base64 where that does not read. */
  function DecodeKey(encoded: string): Option<Bytes> {
    if Decode(encoded, STD).Some? then Decode(encoded, STD) else Decode(encoded, RAW_STD)
  }

  datatype NamedKey = NamedKey(id: string, key: Bytes)

  /** An `id:base64key` entry of the configuration. */
  function ParseKey(entry: string): (r: Option<NamedKey>)
    ensures r.Some? ==> r.value.id != "" && |r.value.key| == 32
  {
    var parts :- Cut(TrimSpace(entry), ':');
    var id := TrimSpace(parts.0);
    if id == "" then None
    else
      var key :- DecodeKey(TrimSpace(parts.1));
      if |key| != KEY_BYTES then None else Some(NamedKey(id, key))
  }

  /** The key that seals, by id, and every key that opens. */
  datatype Ring = Ring(primaryId: string, keys: map<string, Bytes>) {
    predicate Configured() { primaryId != "" }
  }

  datatype Config = Config(primary: string, retired: seq<string>)

  predicate BlankEntry(entry: string) { TrimSpace(entry) == "" }

  function WithRetired(keys: map<string, Bytes>, retired: seq<string>, primaryId: string): Option<map<string, Bytes>> {
    if retired == [] then Some(keys)
    else
      var earlier :- WithRetired(keys, retired[..|retired| - 1], primaryId);
      var entry := retired[|retired| - 1];
      if BlankEntry(entry) then Some(earlier)
      else
        var k :- ParseKey(entry);
        if k.id == primaryId then None else Some(earlier[k.id := k.key])
  }

  function RingOf(c: Config): Option<Ring> {
    if BlankEntry(c.primary) then Some(Ring("", map[]))
    else
      var k :- ParseKey(c.primary);
      var keys :- WithRetired(map[k.id := k.key], c.retired, k.id);
      Some(Ring(k.id, keys))
  }

  method NewKeyring(primary: string, retired: seq<string>) returns (r: Option<Ring>)
    ensures r == RingOf(Config(primary, retired))
  {
    hide ParseKey, BlankEntry;
    if BlankEntry(primary) { return Some(Ring("", map[])); }
    var first := ParseKey(primary);
    if first.None? { return None; }
    var id := first.value.id;
    var keys := map[id := first.value.key];
    for n := 0 to |retired|
      invariant WithRetired(map[id := first.value.key], retired[..n], id) == Some(keys)
    {
      assert retired[..n + 1][..n] == retired[..n];
      if BlankEntry(retired[n]) { continue; }
      var k := ParseKey(retired[n]);
      if k.None? || k.value.id == id {
        FailureSpreads(map[id := first.value.key], retired, id, n + 1);
        return None;
      }
      keys := keys[k.value.id := k.value.key];
    }
    assert retired[..|retired|] == retired;
    return Some(Ring(id, keys));
  }

  lemma {:induction false} FailureSpreads(keys: map<string, Bytes>, retired: seq<string>, primaryId: string, n: nat)
    requires n <= |retired| && WithRetired(keys, retired[..n], primaryId).None?
    ensures WithRetired(keys, retired, primaryId).None?
    decreases |retired| - n
  {
    hide ParseKey, BlankEntry;
    if n == |retired| {
      assert retired[..n] == retired;
    } else {
      assert retired[..n + 1][..n] == retired[..n];
      FailureSpreads(keys, retired, primaryId, n + 1);
    }
  }

  // ---- sealing, with an ideal cipher --------------------------------------

  /**
   * What a sealed value is made of: plain octets, and ciphertexts of an ideal
   * authenticated cipher, each of which names everything that went into it.
   */
  datatype Cell = Octet(b: Byte) | Ciphertext(key: Bytes, nonce: seq<Cell>, plaintext: string, associated: string)

  function AeadSeal(key: Bytes, nonce: seq<Cell>, plaintext: string, associated: string): seq<Cell> {
    [Ciphertext(key, nonce, plaintext, associated)]
  }

  function AeadOpen(key: Bytes, nonce: seq<Cell>, sealed: seq<Cell>, associated: string): Option<string> {
    if |sealed| == 1 && sealed[0].Ciphertext? && sealed[0].key == key && sealed[0].nonce == nonce
        && sealed[0].associated == associated
    then Some(sealed[0].plaintext)
    else None
  }

  datatype Sealing = Sealing(value: seq<Cell>, keyId: string)

  datatype Opened = Opened(plaintext: string) | NoKey | CannotOpen

  /** The nonce stands in front of the ciphertext; nothing is sealed without a key. */
  function Seal(r: Ring, plaintext: string, associated: string, nonce: seq<Cell>): Option<Sealing> {
    if !r.Configured() || r.primaryId !in r.keys then None
    else Some(Sealing(nonce + AeadSeal(r.keys[r.primaryId], nonce, plaintext, associated), r.primaryId))
  }

  function Open(r: Ring, sealed: seq<Cell>, keyId: string, associated: string): Opened {
    if r.keys == map[] then NoKey
    else if keyId !in r.keys then CannotOpen
    else if |sealed| < NONCE_BYTES then CannotOpen
    else
      var p := AeadOpen(r.keys[keyId], sealed[..NONCE_BYTES], sealed[NONCE_BYTES..], associated);
      if p.None? then CannotOpen else Opened(p.value)
  }

  // ---- reading keys -------------------------------------------------------

  /** Either spelling of a key reads as the key: the fallback never takes over a text the first reading means otherwise. */
  lemma KeyReadsInBothSpellings(k: Bytes)
    ensures DecodeKey(Encode(k, Encoding(url := false, padded := true))) == Some(k)
    ensures DecodeKey(Encode(k, Encoding(url := false, padded := false))) == Some(k)
  {
    hide Encode, DecodeDense;
    DecodeInvertsEncode(k, STD);
    DecodeInvertsEncode(k, RAW_STD);
    ReadingsAgree(Dense(Encode(k, RAW_STD)), false);
  }

  /** An entry `id:key` in either spelling gives that id and key if the key has 32 bytes, and nothing otherwise. */
  lemma EntryReadsBack(id: string, k: Bytes, e: Encoding)
    requires id != "" && Trimmed(id) && ':' !in id && !e.url
    ensures ParseKey(id + ":" + Encode(k, e)) == if |k| == 32 then Some(NamedKey(id, k)) else None
  {
    hide DecodeDense, TrimSpace, Cut;
    KeyReadsInBothSpellings(k);
    EncodeHasNoSpace(k, e);
    hide Encode;
    var text := Encode(k, e);
    assert id + ":" + text == id + [':'] + text;
    if k != [] { EncodeIsLong(k, e); } else { EncodeNothing(e); }
    TrimOfTrimmed(id);
    TrimOfTrimmed(text);
    assert Trimmed(id + ":" + text) by {
      var entry := id + ":" + text;
      assert entry[0] == id[0];
      assert entry[|entry| - 1] == if text == "" then ':' else text[|text| - 1];
    }
    TrimOfTrimmed(id + ":" + text);
    CutIs(id, ':', text);
  }

  lemma EncodeNothing(e: Encoding)
    ensures Encode([], e) == ""
  {
  }

  lemma EncodeIsLong(k: Bytes, e: Encoding)
    requires |k| > 0
    ensures Encode(k, e) != ""
  {
  }

  lemma {:induction false} EncodeHasNoSpace(k: Bytes, e: Encoding)
    ensures forall i :: 0 <= i < |Encode(k, e)| ==> !GoSpace(Encode(k, e)[i])
  {
    forall v: nat | v < 64 ensures !GoSpace(Digit(v, e.url)) {}
    hide Digit;
    if |k| >= 3 { EncodeHasNoSpace(k[3..], e); }
  }

  // ---- what a keyring holds -----------------------------------------------

  /** A retired entry that names a key. */
  predicate Names(entry: string, id: string) {
    !BlankEntry(entry) && ParseKey(entry).Some? && ParseKey(entry).value.id == id
  }

  /** The last retired entry that names an id decides its key. */
  lemma {:induction false} LastRetiredEntryWins(keys: map<string, Bytes>, retired: seq<string>, primaryId: string,
      i: nat, id: string)
    requires WithRetired(keys, retired, primaryId).Some?
    requires i < |retired| && Names(retired[i], id) && forall j :: i < j < |retired| ==> !Names(retired[j], id)
    ensures var r := WithRetired(keys, retired, primaryId).value;
            id != primaryId && id in r && r[id] == ParseKey(retired[i]).value.key
  {
    hide ParseKey, BlankEntry;
    var n := |retired| - 1;
    if i < n {
      assert !Names(retired[n], id);
      LastRetiredEntryWins(keys, retired[..n], primaryId, i, id);
    }
  }

  /** An id no retired entry names keeps what it had. */
  lemma {:induction false} UnnamedIdIsLeftAlone(keys: map<string, Bytes>, retired: seq<string>, primaryId: string,
      id: string)
    requires WithRetired(keys, retired, primaryId).Some?
    requires id == primaryId || forall j :: 0 <= j < |retired| ==> !Names(retired[j], id)
    ensures var r := WithRetired(keys, retired, primaryId).value;
            (id in r <==> id in keys) && (id in keys ==> r[id] == keys[id])
  {
    hide ParseKey, BlankEntry;
    if retired != [] {
      var n := |retired| - 1;
      assert id == primaryId || !Names(retired[n], id);
      UnnamedIdIsLeftAlone(keys, retired[..n], primaryId, id);
    }
  }

  lemma BlankExactly(entry: string)
    ensures BlankEntry(entry) <==> OnlySpace(entry)
  {
    TrimToNothing(entry);
  }

  /** Without a primary there is no ring, whatever is retired. */
  lemma NoPrimaryNoRing(c: Config)
    requires OnlySpace(c.primary)
    ensures RingOf(c) == Some(Ring("", map[])) && !RingOf(c).value.Configured()
    ensures forall plaintext, row, nonce :: Seal(RingOf(c).value, plaintext, row, nonce) == None
    ensures forall sealed, keyId, row :: Open(RingOf(c).value, sealed, keyId, row) == NoKey
  {
    BlankExactly(c.primary);
  }

  /** A configuration is refused exactly for an entry that does not read, or a retired one with the primary's id. */
  lemma {:induction false} RefusedExactly(keys: map<string, Bytes>, retired: seq<string>, primaryId: string)
    ensures WithRetired(keys, retired, primaryId).Some? <==>
      forall i :: 0 <= i < |retired| && !OnlySpace(retired[i]) ==>
        ParseKey(retired[i]).Some? && ParseKey(retired[i]).value.id != primaryId
  {
    hide ParseKey, BlankEntry, OnlySpace;
    if retired != [] { BlankExactly(retired[|retired| - 1]); }
    if retired != [] {
      var n := |retired| - 1;
      RefusedExactly(keys, retired[..n], primaryId);
      assert forall i :: 0 <= i < n ==> retired[..n][i] == retired[i];
    }
  }

  // ---- rotation -----------------------------------------------------------

  /** The configuration spells out this key under this id, as primary or retired. */
  ghost predicate Lists(c: Config, id: string, key: Bytes) {
    || (!BlankEntry(c.primary) && ParseKey(c.primary) == Some(NamedKey(id, key)))
    || exists i :: 0 <= i < |c.retired| && Names(c.retired[i], id) && ParseKey(c.retired[i]).value.key == key
  }

  ghost predicate Holds(r: Ring, id: string, key: Bytes) {
    id in r.keys && r.keys[id] == key
  }

  /** Two retired entries that name one id name one key. */
  ghost predicate AgreeingRetired(c: Config) {
    forall i, j, id :: 0 <= i < j < |c.retired| && Names(c.retired[i], id) && Names(c.retired[j], id) ==>
      ParseKey(c.retired[i]).value.key == ParseKey(c.retired[j]).value.key
  }

  /** Without a primary the retired entries are not looked at, so none may name a key. */
  ghost predicate RetiredAreRead(c: Config) {
    BlankEntry(c.primary) ==> forall i, id :: 0 <= i < |c.retired| ==> !Names(c.retired[i], id)
  }

  /**
   * A configuration that builds holds every key it lists exactly when its
   * retired entries agree and there is a primary for them to be read beside.
   */
  lemma {:induction false} EveryListedKeyIsHeld(c: Config)
    requires RingOf(c).Some?
    ensures (forall id, key :: Lists(c, id, key) ==> Holds(RingOf(c).value, id, key))
       <==> AgreeingRetired(c) && RetiredAreRead(c)
  {
    hide RingOf, Lists, Names;
    if AgreeingRetired(c) && RetiredAreRead(c) {
      forall id, key | Lists(c, id, key) ensures Holds(RingOf(c).value, id, key) { ListedKeyIsHeld(c, id, key); }
    } else {
      StrandedKey(c);
    }
  }

  /** Where the condition fails there is a key that is listed and not held. */
  lemma {:induction false} StrandedKey(c: Config)
    requires RingOf(c).Some? && !(AgreeingRetired(c) && RetiredAreRead(c))
    ensures exists id, key :: Lists(c, id, key) && !Holds(RingOf(c).value, id, key)
  {
    hide ParseKey, BlankEntry;
    if !AgreeingRetired(c) {
      var i, j, id :| 0 <= i < j < |c.retired| && Names(c.retired[i], id) && Names(c.retired[j], id)
                      && ParseKey(c.retired[i]).value.key != ParseKey(c.retired[j]).value.key;
      assert Lists(c, id, ParseKey(c.retired[i]).value.key) && Lists(c, id, ParseKey(c.retired[j]).value.key);
    } else {
      var i, id :| 0 <= i < |c.retired| && Names(c.retired[i], id);
      assert Lists(c, id, ParseKey(c.retired[i]).value.key);
    }
  }

  lemma {:induction false} ListedKeyIsHeld(c: Config, id: string, key: Bytes)
    requires RingOf(c).Some? && AgreeingRetired(c) && RetiredAreRead(c) && Lists(c, id, key)
    ensures Holds(RingOf(c).value, id, key)
  {
    hide ParseKey, BlankEntry;
    if !BlankEntry(c.primary) {
      var p := ParseKey(c.primary).value;
      var first := map[p.id := p.key];
      if i :| 0 <= i < |c.retired| && Names(c.retired[i], id) && ParseKey(c.retired[i]).value.key == key {
        var last := LastNamed(c.retired, i, id);
        LastRetiredEntryWins(first, c.retired, p.id, last, id);
      } else {
        UnnamedIdIsLeftAlone(first, c.retired, p.id, id);
      }
    }
  }

  lemma {:induction false} LastNamed(retired: seq<string>, i: nat, id: string) returns (last: nat)
    requires i < |retired| && Names(retired[i], id)
    ensures i <= last < |retired| && Names(retired[last], id)
    ensures forall j :: last < j < |retired| ==> !Names(retired[j], id)
    decreases |retired| - i
  {
    hide Names;
    if j :| i < j < |retired| && Names(retired[j], id) { last := LastNamed(retired, j, id); } else { last := i; }
  }

  /** Two entries for one id: the earlier key is lost, and what it sealed no longer opens. */
  lemma {:induction false} RepeatedIdStrandsTheEarlierKey(c: Config, i: nat, j: nat, id: string)
    requires RingOf(c).Some? && !BlankEntry(c.primary)
    requires i < j < |c.retired| && Names(c.retired[i], id) && Names(c.retired[j], id)
    requires forall k :: j < k < |c.retired| ==> !Names(c.retired[k], id)
    requires ParseKey(c.retired[i]).value.key != ParseKey(c.retired[j]).value.key
    ensures forall nonce: seq<Cell>, plaintext, associated :: |nonce| == NONCE_BYTES ==>
      Open(RingOf(c).value, nonce + AeadSeal(ParseKey(c.retired[i]).value.key, nonce, plaintext, associated),
           id, associated) == CannotOpen
  {
    hide ParseKey, BlankEntry;
    var p := ParseKey(c.primary).value;
    LastRetiredEntryWins(map[p.id := p.key], c.retired, p.id, j, id);
    forall nonce: seq<Cell>, plaintext, associated | |nonce| == NONCE_BYTES
      ensures Open(RingOf(c).value, nonce + AeadSeal(ParseKey(c.retired[i]).value.key, nonce, plaintext, associated),
          id, associated) == CannotOpen
    {
      CutNonce(nonce, AeadSeal(ParseKey(c.retired[i]).value.key, nonce, plaintext, associated));
    }
  }

  lemma CutNonce(nonce: seq<Cell>, sealed: seq<Cell>)
    requires |nonce| == NONCE_BYTES
    ensures (nonce + sealed)[..NONCE_BYTES] == nonce && (nonce + sealed)[NONCE_BYTES..] == sealed
  {
  }

  /** A ring that was configured holds its primary key. */
  lemma PrimaryIsHeld(c: Config)
    requires RingOf(c).Some? && RingOf(c).value.Configured()
    ensures !BlankEntry(c.primary) && RingOf(c).value.primaryId in RingOf(c).value.keys
  {
    hide ParseKey, BlankEntry;
    var p := ParseKey(c.primary).value;
    UnnamedIdIsLeftAlone(map[p.id := p.key], c.retired, p.id, p.id);
  }

  /** Each configuration builds, keeps what it lists, and lists every key of the one before. */
  ghost predicate Rotation(configs: seq<Config>) {
    && (forall i :: 0 <= i < |configs| ==>
          RingOf(configs[i]).Some? && AgreeingRetired(configs[i]) && RetiredAreRead(configs[i]))
    && (forall i, id :: 0 <= i < |configs| - 1 && id in RingOf(configs[i]).value.keys ==>
          Lists(configs[i + 1], id, RingOf(configs[i]).value.keys[id]))
  }

  /** Along a rotation a key, once held, is held under its id ever after. */
  lemma {:induction false} KeysAreNeverDropped(configs: seq<Config>, i: nat, j: nat, id: string)
    requires Rotation(configs) && i <= j < |configs| && id in RingOf(configs[i]).value.keys
    ensures id in RingOf(configs[j]).value.keys && RingOf(configs[j]).value.keys[id] == RingOf(configs[i]).value.keys[id]
    decreases j - i
  {
    hide RingOf, Lists, AgreeingRetired, RetiredAreRead;
    if i < j {
      KeysAreNeverDropped(configs, i, j - 1, id);
      assert Lists(configs[j - 1 + 1], id, RingOf(configs[j - 1]).value.keys[id]);
      ListedKeyIsHeld(configs[j], id, RingOf(configs[j - 1]).value.keys[id]);
    }
  }

  /**
   * Whatever was sealed at some step of a rotation opens at every later one,
   * to its plaintext, for its own row and for no other.
   */
  lemma {:induction false} RotationStrandsNothing(configs: seq<Config>, i: nat, j: nat, plaintext: string,
      associated: string, nonce: seq<Cell>, row: string)
    requires Rotation(configs) && i <= j < |configs| && |nonce| == 12
    requires RingOf(configs[i]).value.Configured()
    ensures var s := Seal(RingOf(configs[i]).value, plaintext, associated, nonce);
            s.Some? && Open(RingOf(configs[j]).value, s.value.value, s.value.keyId, row)
              == if row == associated then Opened(plaintext) else CannotOpen
  {
    PrimaryIsHeld(configs[i]);
    hide RingOf;
    var ring := RingOf(configs[i]).value;
    KeysAreNeverDropped(configs, i, j, ring.primaryId);
    CutNonce(nonce, AeadSeal(ring.keys[ring.primaryId], nonce, plaintext, associated));
  }

  function EntryFor(id: string, k: Bytes): string { id + ":" + Encode(k, STD) }

  lemma EntryNames(id: string, k: Bytes)
    requires id != "" && Trimmed(id) && ':' !in id && |k| == KEY_BYTES
    ensures !BlankEntry(EntryFor(id, k)) && ParseKey(EntryFor(id, k)) == Some(NamedKey(id, k))
    ensures Names(EntryFor(id, k), id)
  {
    hide ParseKey, DecodeKey, Encode;
    EntryReadsBack(id, k, STD);
    if BlankEntry(EntryFor(id, k)) { BlankIsNoEntry(EntryFor(id, k)); }
  }

  lemma BlankIsNoEntry(entry: string)
    requires BlankEntry(entry)
    ensures ParseKey(entry).None?
  {
  }

  /** With any three keys: two retired under one id, and what the first sealed no longer opens. */
  lemma {:induction false} TwoKeysUnderOneId(primary: Bytes, earlier: Bytes, later: Bytes, nonce: seq<Cell>,
      plaintext: string, row: string)
    requires |primary| == |earlier| == |later| == KEY_BYTES && earlier != later && |nonce| == NONCE_BYTES
    ensures var c := Config(EntryFor("now", primary), [EntryFor("old", earlier), EntryFor("old", later)]);
            && RingOf(c).Some? && !AgreeingRetired(c)
            && Open(RingOf(c).value, nonce + AeadSeal(earlier, nonce, plaintext, row), "old", row) == CannotOpen
  {
    hide ParseKey, BlankEntry, EntryFor, Names, AeadSeal, Open;
    var c := Config(EntryFor("now", primary), [EntryFor("old", earlier), EntryFor("old", later)]);
    EntryNames("now", primary);
    EntryNames("old", earlier);
    EntryNames("old", later);
    RefusedExactly(map["now" := primary], c.retired, "now");
    assert RingOf(c).Some?;
    assert ParseKey(c.retired[0]) == Some(NamedKey("old", earlier));
    RepeatedIdStrandsTheEarlierKey(c, 0, 1, "old");
  }

  /** With any two keys: a new primary beside the old one, retired, is a rotation. */
  lemma {:induction false} RetiringThePrimaryIsARotation(former: Bytes, next: Bytes)
    requires |former| == |next| == KEY_BYTES
    ensures Rotation([Config(EntryFor("2026", former), []), Config(EntryFor("2027", next), [EntryFor("2026", former)])])
    ensures var r := RingOf(Config(EntryFor("2026", former), [])); r.Some? && r.value.Configured()
  {
    hide ParseKey, BlankEntry, EntryFor, Names;
    var first := Config(EntryFor("2026", former), []);
    var second := Config(EntryFor("2027", next), [EntryFor("2026", former)]);
    EntryNames("2026", former);
    EntryNames("2027", next);
    RefusedExactly(map["2027" := next], second.retired, "2027");
    assert RingOf(first) == Some(Ring("2026", map["2026" := former]));
    assert Names(second.retired[0], "2026");
    assert Lists(second, "2026", former);
  }

  /** Under a key id an earlier ring holds, any stored value, sound or altered, reads the same at every later step. */
  lemma {:induction false} RotationChangesNoReading(configs: seq<Config>, i: nat, j: nat, sealed: seq<Cell>,
      keyId: string, row: string)
    requires Rotation(configs) && i <= j < |configs| && keyId in RingOf(configs[i]).value.keys
    ensures Open(RingOf(configs[j]).value, sealed, keyId, row) == Open(RingOf(configs[i]).value, sealed, keyId, row)
  {
    KeysAreNeverDropped(configs, i, j, keyId);
    hide RingOf;
  }

  /**
   * A value opens exactly when it was sealed by the key of that id, for that
   * row: not for another row, not altered, not under another key.
   */
  lemma OpensExactly(r: Ring, sealed: seq<Cell>, keyId: string, associated: string, plaintext: string)
    ensures Open(r, sealed, keyId, associated) == Opened(plaintext) <==>
      && keyId in r.keys
      && |sealed| == 13
      && sealed == sealed[..12] + AeadSeal(r.keys[keyId], sealed[..12], plaintext, associated)
  {
    if |sealed| == NONCE_BYTES + 1 {
      assert sealed == sealed[..NONCE_BYTES] + [sealed[NONCE_BYTES]];
      assert sealed[NONCE_BYTES..] == [sealed[NONCE_BYTES]];
    }
  }
}
