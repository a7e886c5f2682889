/**
 What the secret store writes and reads, spelled out byte by byte and case by case: the
 layout of tokens, the prefixes, where keys are kept, and which key is taken.
 */
module SecretFormats {
  import opened Base64Url
  import opened Bytes
  import opened Results
  import opened SecretStore

  // ----- Tokens -----

  /** The bytes of a token: version 128, time, initialization vector, ciphertext and signature. */
  ghost predicate Laid(c: Crypto, token: Text, signing: Text, time: Text, iv: Text, ciphertext: Text) {
    && |time| == 8 && |iv| == 16
    && token == [128] + time + iv + ciphertext + c.mac(signing, [128] + time + iv + ciphertext)
  }

  /** A key is sixteen bytes to sign with and sixteen to encrypt with, in base64. */
  function Key(signing: Text, encryption: Text): Text {
    Encode(signing + encryption)
  }

  lemma KeyParts(signing: Text, encryption: Text)
    requires |signing| == |encryption| == 16
    ensures Decode(Key(signing, encryption)) == Some(signing + encryption)
    ensures (signing + encryption)[..16] == signing && (signing + encryption)[16..] == encryption
  {
    DecodeOfEncode(signing + encryption);
  }

  lemma {:induction false} KeyHalves(key: Text) returns (signing: Text, encryption: Text)
    requires Decode(key).Some? && |Decode(key).value| == 32
    ensures |signing| == |encryption| == 16 && key == Key(signing, encryption)
  {
    var raw := Decode(key).value;
    signing, encryption := raw[..16], raw[16..];
    EncodeOfDecode(key);
    assert signing + encryption == raw;
  }

  /** What is encrypted is signed and laid out, with the time in seconds in eight bytes. */
  lemma EncryptedIs(c: Crypto, plain: Text, signing: Text, encryption: Text, iv: Text, timestamp: nat)
    requires |signing| == |encryption| == |iv| == 16 && timestamp < 0x1_0000_0000_0000_0000
    ensures var token := Encrypted(c, plain, Key(signing, encryption), iv, timestamp);
            && token.Some? && Decode(token.value).Some?
            && Laid(c, Decode(token.value).value, signing, ToBe(timestamp, 8), iv, c.seal(encryption, iv, plain))
    ensures FromBe(ToBe(timestamp, 8)) == timestamp
  {
    KeyParts(signing, encryption);
    var signed := SignedPart(c, plain, signing + encryption, iv, timestamp);
    DecodeOfEncode(signed + c.mac(signing, signed));
    BigEndian(timestamp);
  }

  lemma BigEndian(n: nat)
    requires n < 0x1_0000_0000_0000_0000
    ensures FromBe(ToBe(n, 8)) == n
  {
    assert Capacity(4) == 0x1_0000_0000;
    assert Capacity(8) == 0x1_0000_0000_0000_0000;
    BeRoundTrip(n, 8);
  }

  /** Only a key of that form encrypts or decrypts anything. */
  lemma OnlyKeys(c: Crypto, text: Text, key: Text, iv: Text, timestamp: nat)
    requires !exists signing, encryption :: |signing| == |encryption| == 16 && key == Key(signing, encryption)
    ensures Encrypted(c, text, key, iv, timestamp).None? && Decrypted(c, text, key).None?
  {
    if Decode(key).Some? && |Decode(key).value| == 32 {
      var signing, encryption := KeyHalves(key);
    }
  }

  ghost predicate Opens(c: Crypto, token: Text, signing: Text, encryption: Text, plain: Text) {
    exists time, iv, ciphertext ::
      && Laid(c, token, signing, time, iv, ciphertext)
      && c.unseal(encryption, iv, ciphertext) == Some(plain) && c.utf8(plain)
  }

  /**
   A token gives a plaintext exactly when it is the base64 of bytes that are laid out like
   that, signed with the first half of the key, whose ciphertext the second half decrypts
   to this plaintext; whatever the time in it is.
   */
  lemma DecryptedIff(c: Crypto, token: Text, signing: Text, encryption: Text, plain: Text)
    requires Works(c) && |signing| == |encryption| == 16
    ensures Decrypted(c, token, Key(signing, encryption)) == Some(plain)
       <==> exists bytes :: token == Encode(bytes) && Opens(c, bytes, signing, encryption, plain)
  {
    KeyParts(signing, encryption);
    if Decrypted(c, token, Key(signing, encryption)) == Some(plain) {
      var bytes := Decode(token).value;
      EncodeOfDecode(token);
      OpenedLaid(c, bytes, signing, encryption, plain);
    }
    if bytes :| token == Encode(bytes) && Opens(c, bytes, signing, encryption, plain) {
      DecodeOfEncode(bytes);
      var time, iv, ciphertext :|
        && Laid(c, bytes, signing, time, iv, ciphertext)
        && c.unseal(encryption, iv, ciphertext) == Some(plain) && c.utf8(plain);
      LaidOpened(c, bytes, signing, encryption, time, iv, ciphertext);
    }
  }

  lemma OpenedLaid(c: Crypto, bytes: Text, signing: Text, encryption: Text, plain: Text)
    requires |signing| == |encryption| == 16 && Opened(c, bytes, signing + encryption) == Some(plain)
    ensures Opens(c, bytes, signing, encryption, plain)
  {
    var raw := signing + encryption;
    assert raw[..16] == signing && raw[16..] == encryption;
    var n := |bytes| - 32;
    var time, iv, ciphertext := bytes[1..9], bytes[9..25], bytes[25..n];
    assert bytes[..n][9..25] == iv && bytes[..n][25..] == ciphertext;
    assert bytes[..n] == [128] + time + iv + ciphertext;
    assert bytes == bytes[..n] + bytes[n..];
    assert Laid(c, bytes, signing, time, iv, ciphertext);
  }

  lemma LaidOpened(c: Crypto, bytes: Text, signing: Text, encryption: Text, time: Text, iv: Text, ciphertext: Text)
    requires Works(c) && |signing| == |encryption| == 16 && Laid(c, bytes, signing, time, iv, ciphertext)
    requires c.unseal(encryption, iv, ciphertext).Some? && c.utf8(c.unseal(encryption, iv, ciphertext).value)
    ensures Opened(c, bytes, signing + encryption) == c.unseal(encryption, iv, ciphertext)
  {
    var raw := signing + encryption;
    assert raw[..16] == signing && raw[16..] == encryption;
    var signed := [128] + time + iv + ciphertext;
    var sig := c.mac(signing, signed);
    assert |sig| == 32 && bytes == signed + sig;
    assert bytes[..|bytes| - 32] == signed && bytes[|bytes| - 32..] == sig;
    assert signed[9..25] == iv && signed[25..] == ciphertext;
  }

  // ----- Stored values -----

  lemma Prefixes()
    ensures ENC_PREFIX == Ascii("enc:") && ENC_V2_PREFIX == Ascii("enc:v2:") && [COLON] == Ascii(":")
  {
  }

  /** A value with a key id is the prefix, the id, a colon and the token. */
  lemma IssueIs(id: Id, token: Text)
    ensures Issue(id, token) == Ascii("enc:v2:") + id + Ascii(":") + token
  {
    Prefixes();
  }

  /** What is empty or has a prefix already is stored as it is, and no file changes. */
  lemma StoredAsItIs(c: Crypto, d: Disk, plain: Text, r: Draw)
    requires plain == [] || Ascii("enc:") <= plain
    ensures Stored(c, d, plain, r) == (plain, d)
  {
    Prefixes();
  }

  /**
   Everything else is encrypted with the active key if there is one that can encrypt, else
   with the primary key, which is then made if there is none, and is stored in the clear if
   that cannot encrypt either.
   */
  lemma StoredIs(c: Crypto, d: Disk, plain: Text, r: Draw)
    requires plain != [] && !(Ascii("enc:") <= plain)
    ensures var (active, d') := Activated(d, r);
            var token := if active.Some? then Encrypted(c, plain, active.value.key, r.iv, r.timestamp) else None;
            var primary := Encrypted(c, plain, PrimaryKey(WithPrimary(d', r)).value, r.iv, r.timestamp);
            Stored(c, d, plain, r)
            == if token.Some? then (Ascii("enc:v2:") + active.value.id + Ascii(":") + token.value, d')
               else if primary.Some? then (Ascii("enc:") + primary.value, WithPrimary(d', r))
               else (plain, WithPrimary(d', r))
  {
    Prefixes();
    var (active, d') := Activated(d, r);
    if active.Some? && Encrypted(c, plain, active.value.key, r.iv, r.timestamp).Some? {
      var raw := Decode(active.value.key).value;
      var signed := SignedPart(c, plain, raw, r.iv, r.timestamp);
      NotEmpty(signed + c.mac(raw[..16], signed));
    }
  }

  lemma NotEmpty(s: seq<byte>)
    ensures s != [] ==> Encode(s) != []
  {
  }

  /** What has no prefix is given back as it is stored. */
  lemma PlainReads(c: Crypto, d: Disk, stored: Text)
    requires !(Ascii("enc:") <= stored)
    ensures Read(c, d, stored) == stored
  {
    Prefixes();
  }

  /** A value with a key id is read with that key alone, and as empty without it. */
  lemma IssuedReadsAs(c: Crypto, d: Disk, id: Id, token: Text)
    requires COLON !in id
    ensures var key := KeyById(d, id);
            Read(c, d, Ascii("enc:v2:") + id + Ascii(":") + token)
            == if key.Some? && Decrypted(c, token, key.value).Some? then Decrypted(c, token, key.value).value else []
  {
    IssueIs(id, token);
    ReadIssued(c, d, id, token);
  }

  lemma {:induction false} NoColonFound(s: Text)
    ensures FirstColon(s).None? <==> COLON !in s
  {
    if s != [] {
      NoColonFound(s[1..]);
    }
  }

  /** What has the new prefix but no colon after it is read as empty. */
  lemma NoIdReads(c: Crypto, d: Disk, rest: Text)
    requires COLON !in rest
    ensures Read(c, d, Ascii("enc:v2:") + rest) == []
  {
    Prefixes();
    NoColonFound(rest);
    var stored := ENC_V2_PREFIX + rest;
    assert stored[7..] == rest && stored[..4] == ENC_PREFIX;
  }

  /** A value without a key id is read with the primary key alone, and as empty without it. */
  lemma OldReadsAs(c: Crypto, d: Disk, token: Text)
    requires !(Ascii("v2:") <= token)
    ensures var key := PrimaryKey(d);
            Read(c, d, Ascii("enc:") + token)
            == if key.Some? && Decrypted(c, token, key.value).Some? then Decrypted(c, token, key.value).value else []
  {
    Prefixes();
    var stored := ENC_PREFIX + token;
    assert stored[..4] == ENC_PREFIX && stored[4..] == token;
    assert ENC_V2_PREFIX[4..7] == Ascii("v2:");
    ReadOld(c, d, token);
  }

  // ----- Keys -----

  /** The passphrase's key comes before that of the key file. */
  lemma PrimaryIs(d: Disk, key: Text)
    ensures PrimaryKey(d) == Some(key)
       <==> d.passphraseKey == Some(key) || (d.passphraseKey.None? && d.fileKey == Some(key))
  {
  }

  /** Only if there is no primary key, the one that was drawn is written to the key file. */
  lemma WithPrimaryIs(d: Disk, r: Draw)
    ensures d.passphraseKey.Some? || d.fileKey.Some? ==> WithPrimary(d, r) == d
    ensures d.passphraseKey.None? && d.fileKey.None? ==>
              WithPrimary(d, r) == Disk(d.keyring, Some(Encode(r.newKey)), None)
  {
  }

  /** A saved key can be looked up by its id and is the active one; the other keys stay, and the other files. */
  lemma SavedIs(d: Disk, id: Id, key: Text, other: Id)
    ensures var d' := Saved(d, id, key);
            && d'.fileKey == d.fileKey && d'.passphraseKey == d.passphraseKey
            && d'.keyring.Some? && d'.keyring.value.active == Some(id)
            && KeyById(d', id) == Some(key) && d'.keyring.value.keys[id] == Encode(key)
            && (other != id ==> KeyById(d', other) == KeyById(d, other))
  {
    DecodeOfEncode(key);
  }

  /** A keyring has a key under an id exactly when it holds its base64 there. */
  lemma KeyByIdIff(d: Disk, id: Id, key: Text)
    ensures KeyById(d, id) == Some(key)
       <==> d.keyring.Some? && id in d.keyring.value.keys && d.keyring.value.keys[id] == Encode(key)
  {
    if d.keyring.Some? && id in d.keyring.value.keys {
      DecodeIff(d.keyring.value.keys[id], key);
    }
  }

  /** The key that a keyring names as active is taken, and no file changes. */
  lemma NamedIsActive(d: Disk, id: Id, key: Text, r: Draw)
    requires d.keyring.Some? && d.keyring.value.active == Some(id) && KeyById(d, id) == Some(key)
    ensures Activated(d, r) == (Some(Active(id, key)), d)
  {
  }

  /** A keyring that names no key as active gives none, and no file changes. */
  lemma NoneIsActive(d: Disk, r: Draw)
    requires d.keyring.Some? && d.keyring.value.active.None?
    ensures Activated(d, r) == (None, d)
  {
  }

  /**
   Without a keyring, and with one that names a key which is missing or not in base64, the
   primary key is taken, and is saved as the active one under the id that was drawn.
   */
  lemma PrimaryBecomesActive(d: Disk, r: Draw)
    requires d.keyring.None? || (d.keyring.value.active.Some? && KeyById(d, d.keyring.value.active.value).None?)
    ensures var d' := WithPrimary(d, r);
            && PrimaryKey(d').Some?
            && Activated(d, r)
               == (Some(Active(r.keyId, PrimaryKey(d').value)), Saved(d', r.keyId, PrimaryKey(d').value))
  {
  }
}
