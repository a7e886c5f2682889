/**
 Secrets at rest: Fernet tokens, a keyring that keeps every key under an id, and the
 claim that what was issued can always be read again. Texts are their UTF-8 bytes.
 */
module SecretStore {
  import opened Base64Url
  import opened Bytes
  import opened Results

  type Text = seq<byte>

  const COLON: byte := 0x3a

  /** The prefixes `enc:` and `enc:v2:`. */
  const ENC_PREFIX: Text := [0x65, 0x6e, 0x63, 0x3a]
  const ENC_V2_PREFIX: Text := [0x65, 0x6e, 0x63, 0x3a, 0x76, 0x32, 0x3a]

  predicate StartsWith(s: Text, prefix: Text) {
    prefix <= s
  }

  // ----- Cryptography, which is taken as given -----

  /** AES-128 in CBC mode with padding, HMAC-SHA256, and whether bytes are UTF-8. */
  datatype Crypto = Crypto(
    seal: (Text, Text, Text) -> Text,
    unseal: (Text, Text, Text) -> Option<Text>,
    mac: (Text, Text) -> Text,
    utf8: Text -> bool)

  /** Decryption undoes encryption, and a signature has 32 bytes. */
  ghost predicate Works(c: Crypto) {
    && (forall key, iv, plain | |key| == 16 && |iv| == 16 :: c.unseal(key, iv, c.seal(key, iv, plain)) == Some(plain))
    && (forall key, data :: |c.mac(key, data)| == 32)
  }

  // ----- Fernet tokens -----

  const VERSION: byte := 0x80

  /** What is signed: the version, the time, the initialization vector and the ciphertext. */
  function SignedPart(c: Crypto, plain: Text, raw: Text, iv: Text, timestamp: nat): Text
    requires |raw| == 32
  {
    [VERSION] + ToBe(timestamp, 8) + iv + c.seal(raw[16..], iv, plain)
  }

  function Encrypted(c: Crypto, plain: Text, key: Text, iv: Text, timestamp: nat): Option<Text> {
    match Decode(key)
    case None => None
    case Some(raw) =>
      if |raw| != 32 then None
      else
        var signed := SignedPart(c, plain, raw, iv, timestamp);
        Some(Encode(signed + c.mac(raw[..16], signed)))
  }

  method EncryptFernet(c: Crypto, plain: Text, key: Text, iv: Text, timestamp: nat) returns (r: Option<Text>)
    ensures r == Encrypted(c, plain, key, iv, timestamp)
  {
    var raw := Decode(key);
    if raw.None? {
      return None;
    }
    if |raw.value| != 32 {
      return None;
    }
    var signingKey, encryptionKey := raw.value[..16], raw.value[16..];
    var ciphertext := c.seal(encryptionKey, iv, plain);
    var signed := [VERSION];
    signed := signed + ToBe(timestamp, 8);
    signed := signed + iv;
    signed := signed + ciphertext;
    var sig := c.mac(signingKey, signed);
    signed := signed + sig;
    return Some(Encode(signed));
  }

  /** The plaintext of the bytes of a token, if they are long enough and signed with the key. */
  function Opened(c: Crypto, token: Text, raw: Text): Option<Text>
    requires |raw| == 32
  {
    if |token| < 57 || token[0] != VERSION then None
    else
      var signed, sig := token[..|token| - 32], token[|token| - 32..];
      if c.mac(raw[..16], signed) != sig then None
      else
        match c.unseal(raw[16..], signed[9..25], signed[25..])
        case None => None
        case Some(plain) => if c.utf8(plain) then Some(plain) else None
  }

  function Decrypted(c: Crypto, token: Text, key: Text): Option<Text> {
    match Decode(key)
    case None => None
    case Some(raw) =>
      if |raw| != 32 then None
      else
        match Decode(token)
        case None => None
        case Some(bytes) => Opened(c, bytes, raw)
  }

  lemma SignedParts(c: Crypto, plain: Text, raw: Text, iv: Text, timestamp: nat)
    requires |raw| == 32 && |iv| == 16
    ensures var signed := SignedPart(c, plain, raw, iv, timestamp);
            && |signed| >= 25 && signed[0] == VERSION
            && signed[9..25] == iv && signed[25..] == c.seal(raw[16..], iv, plain)
  {
  }

  /** A token can be opened with its key, through both layers of base64. */
  lemma DecryptOfEncrypt(c: Crypto, plain: Text, key: Text, iv: Text, timestamp: nat)
    requires Works(c) && c.utf8(plain) && |iv| == 16
    requires Encrypted(c, plain, key, iv, timestamp).Some?
    ensures Decrypted(c, Encrypted(c, plain, key, iv, timestamp).value, key) == Some(plain)
  {
    var raw := Decode(key).value;
    var signed := SignedPart(c, plain, raw, iv, timestamp);
    var sig := c.mac(raw[..16], signed);
    SignedParts(c, plain, raw, iv, timestamp);
    DecodeOfEncode(signed + sig);
    assert (signed + sig)[..|signed|] == signed && (signed + sig)[|signed|..] == sig;
    assert c.unseal(raw[16..], iv, c.seal(raw[16..], iv, plain)) == Some(plain);
  }

  /** Only bytes that were signed with the key are opened. */
  lemma OpenedIsSigned(c: Crypto, token: Text, key: Text)
    requires Decrypted(c, token, key).Some?
    ensures var (raw, bytes) := (Decode(key).value, Decode(token).value);
            && |raw| == 32 && |bytes| >= 57
            && bytes[|bytes| - 32..] == c.mac(raw[..16], bytes[..|bytes| - 32])
            && token == Encode(bytes)
  {
    EncodeOfDecode(token);
  }

  // ----- The keyring -----

  type Id = Text

  /** Keys in their text form, encoded once more, by id; and the id of the active one. */
  datatype Keyring = Keyring(keys: map<Id, Text>, active: Option<Id>)

  const NO_KEYS := Keyring(map[], None)

  /** The key files, and the key that a passphrase gives, if there is one. */
  datatype Disk = Disk(keyring: Option<Keyring>, fileKey: Option<Text>, passphraseKey: Option<Text>)

  /** What is drawn at random, and the time. */
  datatype Draw = Draw(newKey: Text, keyId: Id, iv: Text, timestamp: nat)

  function KeyById(d: Disk, id: Id): Option<Text> {
    if d.keyring.Some? && id in d.keyring.value.keys then Decode(d.keyring.value.keys[id]) else None
  }

  function PrimaryKey(d: Disk): Option<Text> {
    if d.passphraseKey.Some? then d.passphraseKey else d.fileKey
  }

  /** Without a primary key, a new one is written to the key file. */
  function WithPrimary(d: Disk, r: Draw): Disk {
    if PrimaryKey(d).Some? then d else d.(fileKey := Some(Encode(r.newKey)))
  }

  function Saved(d: Disk, id: Id, key: Text): Disk {
    var ring := if d.keyring.Some? then d.keyring.value else NO_KEYS;
    d.(keyring := Some(Keyring(ring.keys[id := Encode(key)], Some(id))))
  }

  datatype Active = Active(id: Id, key: Text)

  /** The active key; if there is none yet, the primary key is made the active one. */
  function Activated(d: Disk, r: Draw): (Option<Active>, Disk) {
    if d.keyring.Some? && d.keyring.value.active.None? then (None, d)
    else if d.keyring.Some? && KeyById(d, d.keyring.value.active.value).Some? then
      var id := d.keyring.value.active.value;
      (Some(Active(id, KeyById(d, id).value)), d)
    else
      var d' := WithPrimary(d, r);
      var key := PrimaryKey(d').value;
      (Some(Active(r.keyId, key)), Saved(d', r.keyId, key))
  }

  function Issue(id: Id, token: Text): Text {
    ENC_V2_PREFIX + id + [COLON] + token
  }

  /** What is stored for a plaintext, and the files afterwards. */
  function Stored(c: Crypto, d: Disk, plain: Text, r: Draw): (Text, Disk) {
    if plain == [] || StartsWith(plain, ENC_PREFIX) then (plain, d)
    else
      var (active, d') := Activated(d, r);
      var token := match active {
        case None => None
        case Some(a) => Encrypted(c, plain, a.key, r.iv, r.timestamp)
      };
      if token.Some? && token.value != [] then (Issue(active.value.id, token.value), d')
      else
        var d'' := WithPrimary(d', r);
        match Encrypted(c, plain, PrimaryKey(d'').value, r.iv, r.timestamp)
        case Some(token) => (ENC_PREFIX + token, d'')
        case None => (plain, d'')
  }

  /** Where a text has its first colon. */
  function FirstColon(s: Text): (r: Option<nat>)
    ensures r.Some? ==> r.value < |s|
  {
    if s == [] then None
    else if s[0] == COLON then Some(0)
    else
      match FirstColon(s[1..])
      case None => None
      case Some(k) => Some(k + 1)
  }

  /** The plaintext of what is stored; empty if it cannot be read. */
  function Read(c: Crypto, d: Disk, stored: Text): Text {
    if stored == [] || !StartsWith(stored, ENC_PREFIX) then stored
    else if StartsWith(stored, ENC_V2_PREFIX) then
      var rest := stored[|ENC_V2_PREFIX|..];
      match FirstColon(rest)
      case None => []
      case Some(k) =>
        match KeyById(d, rest[..k])
        case None => []
        case Some(key) => OrEmpty(Decrypted(c, rest[k + 1..], key))
    else
      match PrimaryKey(d)
      case None => []
      case Some(key) => OrEmpty(Decrypted(c, stored[|ENC_PREFIX|..], key))
  }

  function OrEmpty(r: Option<Text>): Text {
    match r case None => [] case Some(s) => s
  }

  class Store {
    const crypto: Crypto
    const passphraseKey: Option<Text>
    var keyring: Option<Keyring>
    var fileKey: Option<Text>

    constructor (crypto: Crypto, disk: Disk)
      ensures this.crypto == crypto && Files() == disk
    {
      this.crypto, passphraseKey, keyring, fileKey := crypto, disk.passphraseKey, disk.keyring, disk.fileKey;
    }

    ghost function Files(): Disk
      reads this
    {
      Disk(keyring, fileKey, passphraseKey)
    }

    method SaveKeyring(activeKeyId: Id, key: Text)
      modifies this`keyring
      ensures Files() == Saved(old(Files()), activeKeyId, key)
    {
      var data := if keyring.Some? then keyring.value else NO_KEYS;
      data := data.(keys := data.keys[activeKeyId := Encode(key)]);
      data := data.(active := Some(activeKeyId));
      keyring := Some(data);
    }

    method PrimaryOrGeneratedKey(r: Draw) returns (key: Text)
      modifies this`fileKey
      ensures Files() == WithPrimary(old(Files()), r) && Some(key) == PrimaryKey(Files())
    {
      if passphraseKey.Some? {
        return passphraseKey.value;
      }
      if fileKey.None? {
        fileKey := Some(Encode(r.newKey));
      }
      return fileKey.value;
    }

    method GenerateNewActiveKey(r: Draw) returns (key: Text)
      modifies this`keyring
      ensures key == Encode(r.newKey) && Files() == Saved(old(Files()), r.keyId, key)
    {
      key := Encode(r.newKey);
      SaveKeyring(r.keyId, key);
    }

    method ActiveKeyWithId(r: Draw) returns (active: Option<Active>)
      modifies this
      ensures (active, Files()) == Activated(old(Files()), r)
    {
      if keyring.Some? {
        if keyring.value.active.None? {
          return None;
        }
        var id := keyring.value.active.value;
        if id in keyring.value.keys {
          var key := Decode(keyring.value.keys[id]);
          if key.Some? {
            return Some(Active(id, key.value));
          }
        }
      }
      var primary := PrimaryOrGeneratedKey(r);
      SaveKeyring(r.keyId, primary);
      return Some(Active(r.keyId, primary));
    }

    method Encrypt(plain: Text, r: Draw) returns (stored: Text)
      modifies this
      ensures (stored, Files()) == Stored(crypto, old(Files()), plain, r)
    {
      if plain == [] || StartsWith(plain, ENC_PREFIX) {
        return plain;
      }
      var active := ActiveKeyWithId(r);
      if active.Some? {
        var token := EncryptFernet(crypto, plain, active.value.key, r.iv, r.timestamp);
        if token.Some? && token.value != [] {
          return Issue(active.value.id, token.value);
        }
      }
      var key := PrimaryOrGeneratedKey(r);
      var token := EncryptFernet(crypto, plain, key, r.iv, r.timestamp);
      if token.Some? {
        return ENC_PREFIX + token.value;
      }
      return plain;
    }

    method Decrypt(stored: Text) returns (plain: Text)
      ensures plain == Read(crypto, Files(), stored)
    {
      if stored == [] || !StartsWith(stored, ENC_PREFIX) {
        return stored;
      }
      if StartsWith(stored, ENC_V2_PREFIX) {
        var rest := stored[|ENC_V2_PREFIX|..];
        var at := FirstColon(rest);
        if at.None? {
          return [];
        }
        var id := rest[..at.value];
        if keyring.None? || id !in keyring.value.keys {
          return [];
        }
        var key := Decode(keyring.value.keys[id]);
        if key.None? {
          return [];
        }
        return OrEmpty(Decrypted(crypto, rest[at.value + 1..], key.value));
      }
      var key := if passphraseKey.Some? then passphraseKey else fileKey;
      if key.None? {
        return [];
      }
      return OrEmpty(Decrypted(crypto, stored[|ENC_PREFIX|..], key.value));
    }

    /** An import only writes the key file. */
    method ImportKey(key: Option<Text>)
      modifies this`fileKey
      ensures Files() == old(Files()).(fileKey := key)
    {
      fileKey := key;
    }
  }

  // ----- Runs -----

  datatype Operation =
    | Encrypt(plain: Text, draw: Draw)
    | Rotate(draw: Draw)
    | Import(key: Option<Text>)
    | Export(draw: Draw)

  /** An export gives the primary key away, and makes one if there is none. */
  function Done(c: Crypto, d: Disk, op: Operation): Disk {
    match op
    case Encrypt(plain, r) => Stored(c, d, plain, r).1
    case Rotate(r) => Saved(d, r.keyId, Encode(r.newKey))
    case Import(key) => d.(fileKey := key)
    case Export(r) => WithPrimary(d, r)
  }

  function AllDone(c: Crypto, d: Disk, ops: seq<Operation>): Disk
    decreases |ops|
  {
    if ops == [] then d else AllDone(c, Done(c, d, ops[0]), ops[1..])
  }

  /** A new id has no colon and names no key yet. */
  predicate Fresh(d: Disk, op: Operation) {
    op.Import? || op.Export? ||
    (COLON !in op.draw.keyId && |op.draw.iv| == 16 && (d.keyring.Some? ==> op.draw.keyId !in d.keyring.value.keys))
  }

  predicate AllFresh(c: Crypto, d: Disk, ops: seq<Operation>)
    decreases |ops|
  {
    ops == [] || (Fresh(d, ops[0]) && AllFresh(c, Done(c, d, ops[0]), ops[1..]))
  }

  /** The id of the active key has no colon. */
  predicate PlainActive(d: Disk) {
    d.keyring.Some? && d.keyring.value.active.Some? ==> COLON !in d.keyring.value.active.value
  }

  /** Every key that was there is still there under its id. */
  predicate Grown(d: Disk, d': Disk) {
    d.keyring.Some? ==>
      && d'.keyring.Some?
      && forall id <- d.keyring.value.keys ::
           id in d'.keyring.value.keys && d'.keyring.value.keys[id] == d.keyring.value.keys[id]
  }

  lemma SavedGrows(d: Disk, id: Id, key: Text)
    requires PlainActive(d) && COLON !in id && (d.keyring.Some? ==> id !in d.keyring.value.keys)
    ensures Grown(d, Saved(d, id, key)) && PlainActive(Saved(d, id, key))
  {
  }

  lemma ActivatedGrows(d: Disk, r: Draw)
    requires PlainActive(d) && COLON !in r.keyId && (d.keyring.Some? ==> r.keyId !in d.keyring.value.keys)
    ensures Grown(d, Activated(d, r).1) && PlainActive(Activated(d, r).1)
  {
    var d' := WithPrimary(d, r);
    SavedGrows(d', r.keyId, PrimaryKey(d').value);
  }

  lemma StepGrows(c: Crypto, d: Disk, op: Operation)
    requires Fresh(d, op) && PlainActive(d)
    ensures Grown(d, Done(c, d, op)) && PlainActive(Done(c, d, op))
  {
    match op
    case Rotate(r) => SavedGrows(d, r.keyId, Encode(r.newKey));
    case Encrypt(_, r) => ActivatedGrows(d, r);
    case Import(_) =>
    case Export(_) =>
  }

  lemma {:induction false} RunGrows(c: Crypto, d: Disk, ops: seq<Operation>)
    requires AllFresh(c, d, ops) && PlainActive(d)
    ensures Grown(d, AllDone(c, d, ops)) && PlainActive(AllDone(c, d, ops))
    decreases |ops|
  {
    if ops != [] {
      StepGrows(c, d, ops[0]);
      RunGrows(c, Done(c, d, ops[0]), ops[1..]);
    }
  }

  // ----- What is issued stays readable -----

  lemma {:induction false} ColonAfter(id: Id, rest: Text)
    requires COLON !in id
    ensures FirstColon(id + [COLON] + rest) == Some(|id|)
  {
    var s := id + [COLON] + rest;
    if id != [] {
      assert s[1..] == id[1..] + [COLON] + rest;
      ColonAfter(id[1..], rest);
    }
  }

  /** A value that was issued is read with the key of its id. */
  lemma ReadIssued(c: Crypto, d: Disk, id: Id, token: Text)
    requires COLON !in id
    ensures Read(c, d, Issue(id, token))
         == match KeyById(d, id) { case None => [] case Some(key) => OrEmpty(Decrypted(c, token, key)) }
  {
    var stored := Issue(id, token);
    var rest := id + [COLON] + token;
    assert stored == ENC_V2_PREFIX + rest;
    assert stored[|ENC_V2_PREFIX|..] == rest;
    assert stored[..4] == ENC_PREFIX;
    ColonAfter(id, token);
    assert rest[..|id|] == id && rest[|id| + 1..] == token;
  }

  /** The key under the active id is the one that was given out as active. */
  lemma ActiveIsKept(d: Disk, r: Draw)
    requires Activated(d, r).0.Some?
    ensures var (active, d') := Activated(d, r); KeyById(d', active.value.id) == Some(active.value.key)
  {
    DecodeOfEncode(Activated(d, r).0.value.key);
  }

  lemma {:induction false} NoColon(s: seq<byte>)
    ensures COLON !in Encode(s)
    decreases |s|
  {
    if |s| >= 3 {
      NoColon(s[3..]);
    }
  }

  /** A token under the primary key is not taken for one with a key id. */
  lemma OldFormat(c: Crypto, plain: Text, key: Text, iv: Text, timestamp: nat, token: Text)
    requires Encrypted(c, plain, key, iv, timestamp) == Some(token)
    ensures !StartsWith(ENC_PREFIX + token, ENC_V2_PREFIX)
  {
    var raw := Decode(key).value;
    var signed := SignedPart(c, plain, raw, iv, timestamp);
    NoColon(signed + c.mac(raw[..16], signed));
    var stored := ENC_PREFIX + token;
    assert |token| > 2 ==> stored[6] == token[2] && token[2] in token;
    V2Prefix(stored);
  }

  lemma V2Prefix(s: Text)
    ensures StartsWith(s, ENC_V2_PREFIX) ==> |s| >= 7 && s[6] == COLON && StartsWith(s, ENC_PREFIX)
  {
    if StartsWith(s, ENC_V2_PREFIX) {
      assert s[..7] == ENC_V2_PREFIX;
      assert s[..4] == ENC_V2_PREFIX[..4] == ENC_PREFIX;
    }
  }

  /** What has the new prefix was issued with the active key. */
  lemma IssuedWithActive(c: Crypto, d: Disk, plain: Text, r: Draw)
    requires !StartsWith(plain, ENC_PREFIX) && StartsWith(Stored(c, d, plain, r).0, ENC_V2_PREFIX)
    ensures var (active, d') := Activated(d, r);
            && active.Some? && Stored(c, d, plain, r).1 == d'
            && Encrypted(c, plain, active.value.key, r.iv, r.timestamp).Some?
            && Stored(c, d, plain, r).0
               == Issue(active.value.id, Encrypted(c, plain, active.value.key, r.iv, r.timestamp).value)
  {
    var d'' := WithPrimary(Activated(d, r).1, r);
    var key := PrimaryKey(d'').value;
    V2Prefix(plain);
    if Encrypted(c, plain, key, r.iv, r.timestamp).Some? {
      OldFormat(c, plain, key, r.iv, r.timestamp, Encrypted(c, plain, key, r.iv, r.timestamp).value);
    }
  }

  lemma GrownKey(d: Disk, later: Disk, id: Id)
    requires Grown(d, later) && KeyById(d, id).Some?
    ensures KeyById(later, id) == KeyById(d, id)
  {
  }

  /** A value that has been issued can be read with any keyring that has grown since. */
  lemma IssuedReads(c: Crypto, d: Disk, plain: Text, r: Draw, later: Disk)
    requires Works(c) && c.utf8(plain) && PlainActive(d) && Fresh(d, Encrypt(plain, r))
    requires !StartsWith(plain, ENC_PREFIX) && StartsWith(Stored(c, d, plain, r).0, ENC_V2_PREFIX)
    requires Grown(Stored(c, d, plain, r).1, later)
    ensures Read(c, later, Stored(c, d, plain, r).0) == plain
  {
    IssuedWithActive(c, d, plain, r);
    var (active, d') := Activated(d, r);
    ActiveIsKept(d, r);
    GrownKey(d', later, active.value.id);
    var token := Encrypted(c, plain, active.value.key, r.iv, r.timestamp).value;
    DecryptOfEncrypt(c, plain, active.value.key, r.iv, r.timestamp);
    ReadIssued(c, later, active.value.id, token);
  }

  /**
   After any run of encryptions, rotations, imports and exports, every value issued on the way
   still gives its plaintext.
   */
  lemma {:induction false} AlwaysReadable(c: Crypto, d: Disk, ops: seq<Operation>, k: nat)
    requires Works(c) && AllFresh(c, d, ops) && PlainActive(d)
    requires k < |ops| && ops[k].Encrypt? && c.utf8(ops[k].plain) && !StartsWith(ops[k].plain, ENC_PREFIX)
    requires StartsWith(Stored(c, AllDone(c, d, ops[..k]), ops[k].plain, ops[k].draw).0, ENC_V2_PREFIX)
    ensures Read(c, AllDone(c, d, ops), Stored(c, AllDone(c, d, ops[..k]), ops[k].plain, ops[k].draw).0)
         == ops[k].plain
    decreases |ops|
  {
    StepGrows(c, d, ops[0]);
    var d' := Done(c, d, ops[0]);
    if k == 0 {
      assert AllDone(c, d, ops[..0]) == d;
      RunGrows(c, d', ops[1..]);
      IssuedReads(c, d, ops[0].plain, ops[0].draw, AllDone(c, d', ops[1..]));
    } else {
      assert ops[..k][1..] == ops[1..][..k - 1];
      AlwaysReadable(c, d', ops[1..], k - 1);
    }
  }

  /** The new format is what an encryption gives, as long as the active key is a Fernet key. */
  lemma NewFormat(c: Crypto, d: Disk, plain: Text, r: Draw)
    requires Works(c) && plain != [] && !StartsWith(plain, ENC_PREFIX)
    requires Activated(d, r).0.Some?
    requires Decode(Activated(d, r).0.value.key).Some? && |Decode(Activated(d, r).0.value.key).value| == 32
    ensures StartsWith(Stored(c, d, plain, r).0, ENC_V2_PREFIX)
  {
    var active := Activated(d, r).0.value;
    var token := Encrypted(c, plain, active.key, r.iv, r.timestamp).value;
    assert token != [];
    var stored := Issue(active.id, token);
    assert stored[..|ENC_V2_PREFIX|] == ENC_V2_PREFIX;
  }

  // ----- What is issued without a key id is read with the primary key of the day -----

  /** Another key neither verifies what was signed with this one, nor decrypts what was encrypted with it. */
  ghost predicate KeysMatter(c: Crypto) {
    && (forall k, k', data | |k| == |k'| == 16 && k != k' :: c.mac(k, data) != c.mac(k', data))
    && (forall k, k', iv, plain | |k| == |k'| == 16 && k != k' :: c.unseal(k', iv, c.seal(k, iv, plain)) != Some(plain))
  }

  predicate IsOld(stored: Text) {
    StartsWith(stored, ENC_PREFIX) && !StartsWith(stored, ENC_V2_PREFIX)
  }

  lemma IssuePrefix(id: Id, token: Text)
    ensures StartsWith(Issue(id, token), ENC_V2_PREFIX)
  {
    assert Issue(id, token)[..|ENC_V2_PREFIX|] == ENC_V2_PREFIX;
  }

  /** What has the old prefix was encrypted with the primary key. */
  lemma OldIssued(c: Crypto, d: Disk, plain: Text, r: Draw)
    requires !StartsWith(plain, ENC_PREFIX) && IsOld(Stored(c, d, plain, r).0)
    ensures plain != []
    ensures var key := PrimaryKey(Stored(c, d, plain, r).1);
            && key.Some? && Encrypted(c, plain, key.value, r.iv, r.timestamp).Some?
            && Stored(c, d, plain, r).0 == ENC_PREFIX + Encrypted(c, plain, key.value, r.iv, r.timestamp).value
  {
    var active := Activated(d, r).0;
    if active.Some? && Encrypted(c, plain, active.value.key, r.iv, r.timestamp).Some? {
      IssuePrefix(active.value.id, Encrypted(c, plain, active.value.key, r.iv, r.timestamp).value);
    }
  }

  lemma ReadOld(c: Crypto, d: Disk, token: Text)
    requires IsOld(ENC_PREFIX + token)
    ensures Read(c, d, ENC_PREFIX + token)
         == match PrimaryKey(d) { case None => [] case Some(key) => OrEmpty(Decrypted(c, token, key)) }
  {
    assert (ENC_PREFIX + token)[|ENC_PREFIX|..] == token;
  }

  /** Opening with any key what was signed with some key. */
  lemma OpenedWith(c: Crypto, signed: Text, sig: Text, raw: Text)
    requires |raw| == 32 && |sig| == 32 && |signed| >= 25 && signed[0] == VERSION
    ensures c.mac(raw[..16], signed) != sig ==> Opened(c, signed + sig, raw).None?
    ensures Opened(c, signed + sig, raw).Some? ==>
              Opened(c, signed + sig, raw) == c.unseal(raw[16..], signed[9..25], signed[25..])
  {
    var token := signed + sig;
    assert token[..|token| - 32] == signed && token[|token| - 32..] == sig;
  }

  predicate SameSigner(key: Text, other: Text) {
    && Decode(key).Some? && |Decode(key).value| == 32
    && Decode(other).Some? && |Decode(other).value| == 32
    && Decode(other).value[..16] == Decode(key).value[..16]
  }

  /** With another key a token does not give its plaintext, and nothing at all if it signs otherwise. */
  lemma OtherKey(c: Crypto, plain: Text, key: Text, iv: Text, timestamp: nat, other: Text)
    requires Works(c) && KeysMatter(c) && |iv| == 16 && other != key
    requires Encrypted(c, plain, key, iv, timestamp).Some?
    ensures Decrypted(c, Encrypted(c, plain, key, iv, timestamp).value, other) != Some(plain)
    ensures !SameSigner(key, other) ==> Decrypted(c, Encrypted(c, plain, key, iv, timestamp).value, other).None?
  {
    if Decode(other).Some? && |Decode(other).value| == 32 {
      var raw, raw' := Decode(key).value, Decode(other).value;
      var signed := SignedPart(c, plain, raw, iv, timestamp);
      var sig := c.mac(raw[..16], signed);
      SignedParts(c, plain, raw, iv, timestamp);
      DecodeOfEncode(signed + sig);
      OpenedWith(c, signed, sig, raw');
      if raw'[..16] == raw[..16] {
        DifferentHalf(key, other);
      }
    }
  }

  lemma DifferentHalf(key: Text, other: Text)
    requires SameSigner(key, other) && other != key
    ensures Decode(other).value[16..] != Decode(key).value[16..]
  {
    var raw, raw' := Decode(key).value, Decode(other).value;
    EncodeOfDecode(key);
    EncodeOfDecode(other);
    assert raw == raw[..16] + raw[16..] && raw' == raw'[..16] + raw'[16..];
  }

  /** A value in the old format is read exactly with the primary key that it was issued under. */
  lemma OldReadsIff(c: Crypto, d: Disk, plain: Text, r: Draw, later: Disk)
    requires Works(c) && KeysMatter(c) && c.utf8(plain) && |r.iv| == 16
    requires !StartsWith(plain, ENC_PREFIX) && IsOld(Stored(c, d, plain, r).0)
    ensures PrimaryKey(Stored(c, d, plain, r).1).Some? && plain != []
    ensures Read(c, later, Stored(c, d, plain, r).0) == plain
       <==> PrimaryKey(later) == PrimaryKey(Stored(c, d, plain, r).1)
    ensures PrimaryKey(later).None? || !SameSigner(PrimaryKey(Stored(c, d, plain, r).1).value, PrimaryKey(later).value)
       ==> Read(c, later, Stored(c, d, plain, r).0) == []
  {
    OldIssued(c, d, plain, r);
    var key := PrimaryKey(Stored(c, d, plain, r).1).value;
    ReadOld(c, later, Encrypted(c, plain, key, r.iv, r.timestamp).value);
    DecryptOfEncrypt(c, plain, key, r.iv, r.timestamp);
    if PrimaryKey(later).Some? && PrimaryKey(later).value != key {
      OtherKey(c, plain, key, r.iv, r.timestamp, PrimaryKey(later).value);
    }
  }

  lemma {:induction false} DoneInTwo(c: Crypto, d: Disk, a: seq<Operation>, b: seq<Operation>)
    ensures AllDone(c, d, a + b) == AllDone(c, AllDone(c, d, a), b)
    decreases |a|
  {
    if a == [] {
      assert a + b == b;
    } else {
      assert (a + b)[1..] == a[1..] + b;
      DoneInTwo(c, Done(c, d, a[0]), a[1..], b);
    }
  }

  /** The run up to the k-th operation, that operation, and what follows. */
  lemma DoneAround(c: Crypto, d: Disk, ops: seq<Operation>, k: nat)
    requires k < |ops|
    ensures AllDone(c, d, ops) == AllDone(c, Done(c, AllDone(c, d, ops[..k]), ops[k]), ops[k + 1..])
  {
    assert ops == ops[..k] + ops[k..] && ops[k..][1..] == ops[k + 1..];
    DoneInTwo(c, d, ops[..k], ops[k..]);
  }

  /** The key that the last import brought. */
  function LastImport(ops: seq<Operation>): Option<Option<Text>> {
    if ops == [] then None
    else
      var last := ops[|ops| - 1];
      if last.Import? then Some(last.key) else LastImport(ops[..|ops| - 1])
  }

  /** The primary key is the passphrase's, or what the last import brought, or the one that was there. */
  lemma {:induction false} PrimaryAfter(c: Crypto, d: Disk, ops: seq<Operation>)
    requires PrimaryKey(d).Some?
    ensures AllDone(c, d, ops).passphraseKey == d.passphraseKey
    ensures d.passphraseKey.None? ==>
              match LastImport(ops)
              case None => AllDone(c, d, ops).fileKey == d.fileKey
              case Some(None) => true
              case Some(Some(key)) => AllDone(c, d, ops).fileKey == Some(key)
    decreases |ops|
  {
    if ops != [] {
      var front, last := ops[..|ops| - 1], ops[|ops| - 1];
      PrimaryAfter(c, d, front);
      DoneInTwo(c, d, front, [last]);
      assert ops == front + [last] && [last][1..] == [];
    }
  }

  lemma {:induction false} SamePassphrase(c: Crypto, d: Disk, ops: seq<Operation>)
    ensures AllDone(c, d, ops).passphraseKey == d.passphraseKey
    decreases |ops|
  {
    if ops != [] {
      SamePassphrase(c, Done(c, d, ops[0]), ops[1..]);
    }
  }

  /** The value that the k-th operation of a run gives out, and the files it leaves. */
  function IssuedAt(c: Crypto, d: Disk, ops: seq<Operation>, k: nat): (Text, Disk)
    requires k < |ops| && ops[k].Encrypt?
  {
    Stored(c, AllDone(c, d, ops[..k]), ops[k].plain, ops[k].draw)
  }

  /** The primary key at the end of a run, seen from one of its operations. */
  lemma PrimaryOfRun(c: Crypto, d: Disk, ops: seq<Operation>, k: nat)
    requires k < |ops| && ops[k].Encrypt? && PrimaryKey(IssuedAt(c, d, ops, k).1).Some?
    ensures var (key, later) := (PrimaryKey(IssuedAt(c, d, ops, k).1), PrimaryKey(AllDone(c, d, ops)));
            && (d.passphraseKey.Some? ==> later == key)
            && (d.passphraseKey.None? ==>
                  match LastImport(ops[k + 1..])
                  case None => later == key
                  case Some(None) => true
                  case Some(Some(imported)) => later == Some(imported))
  {
    var d' := IssuedAt(c, d, ops, k).1;
    assert Done(c, AllDone(c, d, ops[..k]), ops[k]) == d';
    DoneAround(c, d, ops, k);
    PrimaryAfter(c, d', ops[k + 1..]);
    SamePassphrase(c, d, ops[..k]);
    SamePassphrase(c, AllDone(c, d, ops[..k]), [ops[k]]);
    assert [ops[k]][1..] == [];
  }

  /**
   Over every run, a value issued in the old format still gives its plaintext exactly when
   the primary key is the one that it was issued under: when that is the passphrase's, or
   no key was imported since, or the last one imported was the same.
   */
  lemma OldReadableIff(c: Crypto, d: Disk, ops: seq<Operation>, k: nat)
    requires Works(c) && KeysMatter(c)
    requires k < |ops| && ops[k].Encrypt? && c.utf8(ops[k].plain) && |ops[k].draw.iv| == 16
    requires !StartsWith(ops[k].plain, ENC_PREFIX) && IsOld(IssuedAt(c, d, ops, k).0)
    ensures var (stored, d') := IssuedAt(c, d, ops, k);
            Read(c, AllDone(c, d, ops), stored) == ops[k].plain <==> PrimaryKey(AllDone(c, d, ops)) == PrimaryKey(d')
    ensures d.passphraseKey.Some? || LastImport(ops[k + 1..]).None? ==>
              Read(c, AllDone(c, d, ops), IssuedAt(c, d, ops, k).0) == ops[k].plain
    ensures d.passphraseKey.None? && LastImport(ops[k + 1..]).Some? && LastImport(ops[k + 1..]).value.Some? ==>
              (Read(c, AllDone(c, d, ops), IssuedAt(c, d, ops, k).0) == ops[k].plain
               <==> LastImport(ops[k + 1..]).value == PrimaryKey(IssuedAt(c, d, ops, k).1))
  {
    var before := AllDone(c, d, ops[..k]);
    OldReadsIff(c, before, ops[k].plain, ops[k].draw, AllDone(c, d, ops));
    PrimaryOfRun(c, d, ops, k);
  }

  // ----- An old value that is lost -----

  /** A cipher that shows its key and a signature that shows its signer: enough for what is assumed. */
  const TOY := Crypto(
    (key: Text, iv: Text, plain: Text) => key + plain,
    (key: Text, iv: Text, sealed: Text) => if key <= sealed then Some(sealed[|key|..]) else None,
    (key: Text, data: Text) => if |key| == 16 then key + key else Zeros(32),
    (text: Text) => true)

  function Zeros(n: nat): (s: Text)
    ensures |s| == n
  {
    seq(n, i => 0)
  }

  lemma ToyWorks()
    ensures Works(TOY) && KeysMatter(TOY)
  {
    forall k, k', data | |k| == |k'| == 16 && k != k' ensures TOY.mac(k, data) != TOY.mac(k', data) {
      assert (k + k)[..16] == k && (k' + k')[..16] == k';
    }
    forall k, k', iv, plain | |k| == |k'| == 16 && k != k'
      ensures TOY.unseal(k', iv, TOY.seal(k, iv, plain)) != Some(plain)
    {
      assert (k + plain)[..16] == k;
    }
  }

  /** A keyring that names no active key, and no passphrase. */
  function Keyless(key: Text): Disk {
    Disk(Some(NO_KEYS), Some(Encode(key)), None)
  }

  /**
   A keyring without an active key makes encryption use the primary key, in the old
   format; then another key is imported, and the value reads as empty.
   */
  lemma OldLost(c: Crypto, key: Text, other: Text, plain: Text, r: Draw)
    requires Works(c) && KeysMatter(c) && c.utf8(plain) && |r.iv| == 16
    requires |key| == |other| == 32 && key[..16] != other[..16]
    requires plain != [] && !StartsWith(plain, ENC_PREFIX)
    ensures var (stored, d) := Stored(c, Keyless(key), plain, r);
            && IsOld(stored) && Read(c, d, stored) == plain
            && Read(c, Done(c, d, Import(Some(Encode(other)))), stored) == []
  {
    var d := Keyless(key);
    DecodeOfEncode(key);
    DecodeOfEncode(other);
    var token := Encrypted(c, plain, Encode(key), r.iv, r.timestamp).value;
    assert Stored(c, d, plain, r) == (ENC_PREFIX + token, d);
    OldFormat(c, plain, Encode(key), r.iv, r.timestamp, token);
    assert (ENC_PREFIX + token)[..4] == ENC_PREFIX;
    OldReadsIff(c, d, plain, r, d);
    OldReadsIff(c, d, plain, r, Done(c, d, Import(Some(Encode(other)))));
  }

  lemma OldLostOnce()
    ensures var (stored, d) := Stored(TOY, Keyless(Zeros(32)), [0x61], Draw([], [], Zeros(16), 0));
            && IsOld(stored) && Read(TOY, d, stored) == [0x61]
            && Read(TOY, Done(TOY, d, Import(Some(Encode(seq(32, i => 1))))), stored) == []
  {
    ToyWorks();
    var other: Text := seq(32, i => 1);
    assert Zeros(32)[..16][0] != other[..16][0];
    OldLost(TOY, Zeros(32), other, [0x61], Draw([], [], Zeros(16), 0));
  }

  // ----- After a rotation -----

  /** The active key is a Fernet key, so what is issued has a key id. */
  predicate ActiveIsFernet(d: Disk) {
    && d.keyring.Some? && d.keyring.value.active.Some?
    && KeyById(d, d.keyring.value.active.value).Some?
    && Decode(KeyById(d, d.keyring.value.active.value).value).Some?
    && |Decode(KeyById(d, d.keyring.value.active.value).value).value| == 32
  }

  lemma RotatedIsFernet(d: Disk, r: Draw)
    requires |r.newKey| == 32
    ensures ActiveIsFernet(Saved(d, r.keyId, Encode(r.newKey)))
  {
    DecodeOfEncode(Encode(r.newKey));
    DecodeOfEncode(r.newKey);
  }

  lemma FernetStays(c: Crypto, d: Disk, op: Operation)
    requires Works(c) && ActiveIsFernet(d) && (op.Rotate? ==> |op.draw.newKey| == 32)
    ensures ActiveIsFernet(Done(c, d, op))
  {
    match op
    case Rotate(r) => RotatedIsFernet(d, r);
    case Import(_) =>
    case Export(_) =>
    case Encrypt(plain, r) =>
      if plain != [] && !StartsWith(plain, ENC_PREFIX) {
        NewFormat(c, d, plain, r);
        IssuedWithActive(c, d, plain, r);
      }
  }

  /** Once a key has been rotated in, every value of the run is issued with a key id, whatever is imported. */
  lemma {:induction false} NewAfterRotation(c: Crypto, d: Disk, ops: seq<Operation>, plain: Text, r: Draw)
    requires Works(c) && ops != [] && ops[0].Rotate?
    requires forall op <- ops :: op.Rotate? ==> |op.draw.newKey| == 32
    requires plain != [] && !StartsWith(plain, ENC_PREFIX)
    ensures StartsWith(Stored(c, AllDone(c, d, ops), plain, r).0, ENC_V2_PREFIX)
  {
    RotatedIsFernet(d, ops[0].draw);
    FernetRun(c, Done(c, d, ops[0]), ops[1..]);
    NewFormat(c, AllDone(c, d, ops), plain, r);
  }

  lemma {:induction false} FernetRun(c: Crypto, d: Disk, ops: seq<Operation>)
    requires Works(c) && ActiveIsFernet(d) && forall op <- ops :: op.Rotate? ==> |op.draw.newKey| == 32
    ensures ActiveIsFernet(AllDone(c, d, ops))
    decreases |ops|
  {
    if ops != [] {
      FernetStays(c, d, ops[0]);
      FernetRun(c, Done(c, d, ops[0]), ops[1..]);
    }
  }
}
