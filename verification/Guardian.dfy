// The guardian's capsule: sdk/account/guardian.go.

module Guardian {
  import opened Basics
  import opened Entropy
  import opened AccountTypes
  import opened AccountBackup
  import opened AccountShares
  import opened Base64
  import opened Text
  import opened Hkdf
  import opened Sealing

  const KEY_SIZE := 32

  function AadTail(packageID: string, shareID: string): string { packageID + "|" + shareID }

  function GuardianAad(c: Suite, packageID: string, shareID: string): Bytes {
    c.utf8("sat20-guardian-share-v1|" + AadTail(packageID, shareID))
  }

  function GuardianKey(c: Suite, shared: Bytes, packageID: string, shareID: string): Bytes {
    Derive(c, shared, c.utf8(packageID), c.utf8("sat20-guardian-wrap-v1|" + shareID), 32)
  }

  /** The info is the share's, the salt the package's. */
  lemma GuardianKeyIs(c: Suite, shared: Bytes, packageID: string, shareID: string)
    requires DigestLaws(c)
    ensures GuardianKey(c, shared, packageID, shareID) ==
              c.hmac(c.hmac(c.utf8(packageID), shared), c.utf8("sat20-guardian-wrap-v1|" + shareID) + [1])
  {
    hide Derive;
    DerivedKey(c, shared, c.utf8(packageID), c.utf8("sat20-guardian-wrap-v1|" + shareID));
  }

  /** The sealed text of a share under an agreed secret. */
  function SealShare(c: Suite, shared: Bytes, share: RecoveryShare, stream: Bytes): Outcome<Drawn<Sealed>> {
    SealBytes(c, GuardianKey(c, shared, share.packageID, share.checksum), c.shareJson(share),
              GuardianAad(c, share.packageID, share.checksum), stream)
  }

  function MakeCapsule(share: RecoveryShare, ephemeralPublic: Bytes, s: Sealed): GuardianCapsule {
    GuardianCapsule(VERSION, share.packageID, share.checksum, "x25519-aes-256-gcm", RawUrlEncode(ephemeralPublic),
                    s.nonce, s.ciphertext)
  }

  function EncryptGuardianShare(c: Suite, share: RecoveryShare, guardianPublicKey: Bytes, stream: Bytes)
    : Outcome<Drawn<GuardianCapsule>>
  {
    if ValidateShare(c, share).Err? || share.role != ROLE_GUARDIAN then Err(InvalidShare)
    else if |guardianPublicKey| != KEY_SIZE then Err(InvalidGuardianKey)
    else
      var ephemeral :- Draw(stream, KEY_SIZE);
      match c.exchange(ephemeral.value, guardianPublicKey)
      case None => Err(ExchangeFailed)
      case Some(shared) =>
        var s :- SealShare(c, shared, share, ephemeral.rest);
        var capsule := MakeCapsule(share, c.publicKey(ephemeral.value), s.value);
        if ValidCapsule(capsule) then Ok(Drawn(capsule, s.rest)) else Err(InvalidRecoveryPackage)
  }

  method EncryptWithReader(c: Suite, share: RecoveryShare, guardianPublicKey: Bytes, random: Reader)
    returns (r: Outcome<GuardianCapsule>)
    requires DigestLaws(c)
    modifies random
    ensures r.Ok? <==> EncryptGuardianShare(c, share, guardianPublicKey, old(random.stream)).Ok?
    ensures r.Ok? ==>
              Drawn(r.value, random.stream) ==
                    EncryptGuardianShare(c, share, guardianPublicKey, old(random.stream)).value
    ensures r.Err? ==> r.error == EncryptGuardianShare(c, share, guardianPublicKey, old(random.stream)).error
  {
    hide ValidateShare, ValidCapsule, RawUrlEncode, SealBytes;
    if ValidateShare(c, share).Err? || share.role != ROLE_GUARDIAN {
      return Err(InvalidShare);
    }
    if |guardianPublicKey| != KEY_SIZE {
      return Err(InvalidGuardianKey);
    }
    var ephemeral := random.ReadFull(KEY_SIZE);
    if ephemeral.None? {
      return Err(EntropyExhausted);
    }
    var agreed := c.exchange(ephemeral.value, guardianPublicKey);
    if agreed.None? {
      return Err(ExchangeFailed);
    }
    var shared := Fill(agreed.value);
    var key, _, _ :=
          HkdfSha256(c, shared[..], c.utf8(share.packageID), c.utf8("sat20-guardian-wrap-v1|" + share.checksum), 32);
    var plaintext := Fill(c.shareJson(share));
    var s := SealWithReader(c, key[..32], plaintext[..], GuardianAad(c, share.packageID, share.checksum), random);
    Zero(plaintext);
    Zero(key);
    Zero(shared);
    if s.Err? {
      return Err(s.error);
    }
    var capsule := MakeCapsule(share, c.publicKey(ephemeral.value), s.value);
    if !ValidCapsule(capsule) {
      return Err(InvalidRecoveryPackage);
    }
    return Ok(capsule);
  }

  /** The secret a guardian's private key agrees on with the capsule's ephemeral key. */
  function AgreedSecret(c: Suite, g: GuardianCapsule, privateKey: Bytes): Outcome<Bytes> {
    if |privateKey| != KEY_SIZE then Err(RecoveryFailed)
    else
      match RawUrlDecode(g.ephemeralPublicKey)
      case None => Err(RecoveryFailed)
      case Some(public) =>
        if |public| != KEY_SIZE then Err(RecoveryFailed)
        else
          match c.exchange(privateKey, public)
          case None => Err(RecoveryFailed)
          case Some(shared) => Ok(shared)
  }

  function OpenCapsule(c: Suite, g: GuardianCapsule, shared: Bytes): Outcome<Bytes> {
    OpenSealed(c, GuardianKey(c, shared, g.packageID, g.shareID), g.nonce, g.ciphertext,
               GuardianAad(c, g.packageID, g.shareID))
  }

  function DecryptGuardianShare(c: Suite, g: GuardianCapsule, privateKey: Bytes): Outcome<RecoveryShare> {
    if !ValidCapsule(g) then Err(InvalidRecoveryPackage)
    else
      var shared :- AgreedSecret(c, g, privateKey);
      var plaintext :- OpenCapsule(c, g, shared);
      match c.parseShare(plaintext)
      case None => Err(RecoveryFailed)
      case Some(share) =>
        if ValidateShare(c, share).Err? || share.packageID != g.packageID || share.checksum != g.shareID
           || share.role != ROLE_GUARDIAN then Err(RecoveryFailed)
        else Ok(share)
  }

  /** Both sides of the exchange hold one secret, so the guardian gets the very share that was wrapped. */
  lemma EncryptThenDecrypt(c: Suite, share: RecoveryShare, privateKey: Bytes, stream: Bytes)
    requires Lawful(c) && |privateKey| == KEY_SIZE
    requires EncryptGuardianShare(c, share, c.publicKey(privateKey), stream).Ok?
    ensures var g := EncryptGuardianShare(c, share, c.publicKey(privateKey), stream).value.value;
            DecryptGuardianShare(c, g, privateKey) == Ok(share)
  {
    hide ValidateShare, ValidCapsule, RawUrlEncode, RawUrlDecode, GuardianKey, GuardianAad, SealBytes, OpenSealed;
    var ephemeral := stream[..KEY_SIZE];
    var shared := c.exchange(ephemeral, c.publicKey(privateKey)).value;
    assert c.exchange(privateKey, c.publicKey(ephemeral)) == Some(shared);
    RawUrlRoundTrip(c.publicKey(ephemeral));
    SealThenOpen(c, GuardianKey(c, shared, share.packageID, share.checksum), c.shareJson(share),
                 GuardianAad(c, share.packageID, share.checksum), stream[KEY_SIZE..]);
  }

  /** Wrapping a valid guardian share fails only for a bad key, a bad exchange or missing entropy. */
  lemma EncryptSucceeds(c: Suite, share: RecoveryShare, guardianPublicKey: Bytes, stream: Bytes)
    requires Lawful(c) && ValidateShare(c, share).Ok? && share.role == ROLE_GUARDIAN
    ensures EncryptGuardianShare(c, share, guardianPublicKey, stream).Ok? <==>
              && |guardianPublicKey| == KEY_SIZE && |stream| >= KEY_SIZE + NONCE_SIZE
              && c.exchange(stream[..KEY_SIZE], guardianPublicKey).Some?
  {
    hide RawUrlEncode, RawUrlDecode, Derive, ShareChecksum, ValidHex;
    var fits := |guardianPublicKey| == KEY_SIZE && |stream| >= KEY_SIZE;
    if fits && c.exchange(stream[..KEY_SIZE], guardianPublicKey).Some? {
      var shared := c.exchange(stream[..KEY_SIZE], guardianPublicKey).value;
      DeriveLength(c, shared, c.utf8(share.packageID), c.utf8("sat20-guardian-wrap-v1|" + share.checksum), 32);
      var public := c.publicKey(stream[..KEY_SIZE]);
      assert public != [] && RawUrlEncode(public) != "";
      var s := SealShare(c, shared, share, stream[KEY_SIZE..]);
      if s.Ok? {
        SealThenOpen(c, GuardianKey(c, shared, share.packageID, share.checksum), c.shareJson(share),
                     GuardianAad(c, share.packageID, share.checksum), stream[KEY_SIZE..]);
      }
    }
  }

  /**
   * A capsule names its package and share, carries the ephemeral key's public half, and holds the share's JSON
   * sealed under the agreed key; only a valid guardian share is ever wrapped.
   */
  lemma CapsuleSays(c: Suite, share: RecoveryShare, guardianPublicKey: Bytes, stream: Bytes)
    requires DigestLaws(c) && EncryptGuardianShare(c, share, guardianPublicKey, stream).Ok?
    ensures ValidateShare(c, share).Ok? && share.role == "guardian" && |guardianPublicKey| == 32 && |stream| >= 44
    ensures c.exchange(stream[..32], guardianPublicKey).Some?
    ensures var g := EncryptGuardianShare(c, share, guardianPublicKey, stream).value;
            var prk := c.hmac(c.utf8(share.packageID), c.exchange(stream[..32], guardianPublicKey).value);
            var key := c.hmac(prk, c.utf8("sat20-guardian-wrap-v1|" + share.checksum) + [1]);
            var text := "sat20-guardian-share-v1|" + share.packageID + "|" + share.checksum;
            && g.rest == stream[44..] && g.value.version == 1 && g.value.algorithm == "x25519-aes-256-gcm"
            && g.value.packageID == share.packageID && g.value.shareID == share.checksum
            && RawUrlDecode(g.value.ephemeralPublicKey) == Some(c.publicKey(stream[..32]))
            && RawUrlDecode(g.value.nonce) == Some(stream[32..44])
            && RawUrlDecode(g.value.ciphertext) == Some(c.seal(key, stream[32..44], c.shareJson(share), c.utf8(text)))
  {
    hide ValidateShare, ValidHex, Derive, RawUrlEncode, RawUrlDecode, SealBytes;
    var shared := c.exchange(stream[..32], guardianPublicKey).value;
    GuardianKeyIs(c, shared, share.packageID, share.checksum);
    var rest := stream[32..];
    SealsExactly(c, GuardianKey(c, shared, share.packageID, share.checksum), c.shareJson(share),
                 GuardianAad(c, share.packageID, share.checksum), rest);
    assert rest[..12] == stream[32..44] && rest[12..] == stream[44..];
    RawUrlRoundTrip(c.publicKey(stream[..32]));
    assert "sat20-guardian-share-v1|" + AadTail(share.packageID, share.checksum) ==
           "sat20-guardian-share-v1|" + share.packageID + "|" + share.checksum;
  }

  /** Whatever a capsule yields is a valid guardian share with the capsule's package and share id. */
  lemma OpenedShare(c: Suite, g: GuardianCapsule, privateKey: Bytes)
    requires DecryptGuardianShare(c, g, privateKey).Ok?
    ensures var s := DecryptGuardianShare(c, g, privateKey).value;
            && ValidateShare(c, s).Ok? && s.role == "guardian" && s.index == 3
            && s.packageID == g.packageID && s.checksum == g.shareID && |privateKey| == 32
  {
    hide ValidateShare, ValidHex, RawUrlDecode, OpenSealed;
    ShareValidExactly(c, DecryptGuardianShare(c, g, privateKey).value);
  }

  lemma AadInjective(c: Suite, p: string, s: string, p': string, s': string)
    requires TextLaws(c) && ValidHex(p, 32) && ValidHex(p', 32)
    requires GuardianAad(c, p, s) == GuardianAad(c, p', s')
    ensures p == p' && s == s'
  {
    var d := "sat20-guardian-share-v1|";
    assert (d + AadTail(p, s))[|d|..] == AadTail(p, s) && (d + AadTail(p', s'))[|d|..] == AadTail(p', s');
    HexBarFree(p);
    HexBarFree(p');
    SplitAtBar(p, s, p', s');
  }

  /** The key a capsule was sealed under. */
  function SealingKey(c: Suite, share: RecoveryShare, guardianPublicKey: Bytes, stream: Bytes): Bytes {
    match c.exchange(Take(stream, KEY_SIZE), guardianPublicKey)
    case Some(shared) => GuardianKey(c, shared, share.packageID, share.checksum)
    case None => []
  }

  /** The nonce drawn after the ephemeral key. */
  function DrawnNonce(stream: Bytes): Bytes {
    if |stream| >= KEY_SIZE + NONCE_SIZE then stream[KEY_SIZE..][..NONCE_SIZE] else []
  }

  /** A plaintext that decryption accepts from this capsule once it is opened. */
  predicate Accepts(c: Suite, g: GuardianCapsule, plaintext: Bytes) {
    match c.parseShare(plaintext)
    case None => false
    case Some(s) =>
      ValidateShare(c, s).Ok? && s.packageID == g.packageID && s.checksum == g.shareID && s.role == ROLE_GUARDIAN
  }

  /** Some acceptable plaintext is a forgery of the capsule's text, under its key and nonce and the opener's key. */
  ghost predicate Forged(c: Suite, share: RecoveryShare, guardianPublicKey: Bytes, stream: Bytes,
                         g: GuardianCapsule, key: Bytes)
  {
    exists p ::
      && Accepts(c, g, p)
      && Forgery(c, SealingKey(c, share, guardianPublicKey, stream), c.shareJson(share),
                 GuardianAad(c, share.packageID, share.checksum),
                 key, p, GuardianAad(c, g.packageID, g.shareID), DrawnNonce(stream))
  }

  lemma SealedAs(c: Suite, share: RecoveryShare, guardianPublicKey: Bytes, stream: Bytes)
    requires EncryptGuardianShare(c, share, guardianPublicKey, stream).Ok?
    ensures |stream| >= KEY_SIZE + NONCE_SIZE && c.exchange(stream[..KEY_SIZE], guardianPublicKey).Some?
    ensures ValidHex(share.packageID, 32)
    ensures var g := EncryptGuardianShare(c, share, guardianPublicKey, stream).value.value;
            var s := SealBytes(c, SealingKey(c, share, guardianPublicKey, stream), c.shareJson(share),
                               GuardianAad(c, share.packageID, share.checksum), stream[KEY_SIZE..]);
            s.Ok? && g.nonce == s.value.value.nonce && g.ciphertext == s.value.value.ciphertext
  {
    hide RawUrlEncode, GuardianKey, GuardianAad, ValidHex;
  }

  /**
   * A capsule whose package or share id was changed yields a share exactly when the cipher has a forgery of
   * this very ciphertext, under the key it was sealed with, the key the opener derives and the drawn nonce.
   */
  lemma ChangedIdsForge(c: Suite, share: RecoveryShare, guardianPublicKey: Bytes, stream: Bytes,
                        packageID: string, shareID: string, privateKey: Bytes)
    requires Lawful(c)
    requires EncryptGuardianShare(c, share, guardianPublicKey, stream).Ok?
    requires packageID != share.packageID || shareID != share.checksum
    ensures var g := EncryptGuardianShare(c, share, guardianPublicKey, stream).value.value;
            var g' := g.(packageID := packageID, shareID := shareID);
            DecryptGuardianShare(c, g', privateKey).Ok? <==>
              && ValidCapsule(g')
              && AgreedSecret(c, g', privateKey).Ok?
              && Forged(c, share, guardianPublicKey, stream, g',
                        GuardianKey(c, AgreedSecret(c, g', privateKey).value, packageID, shareID))
  {
    hide ValidateShare, EncryptGuardianShare, AgreedSecret, SealBytes, GuardianKey, GuardianAad, OpenSealed, Forgery,
         SealingKey, ValidHex;
    var g := EncryptGuardianShare(c, share, guardianPublicKey, stream).value.value;
    var g' := g.(packageID := packageID, shareID := shareID);
    SealedAs(c, share, guardianPublicKey, stream);
    if ValidCapsule(g') && AgreedSecret(c, g', privateKey).Ok? {
      var aad, aad' := GuardianAad(c, share.packageID, share.checksum), GuardianAad(c, packageID, shareID);
      if aad == aad' {
        AadInjective(c, share.packageID, share.checksum, packageID, shareID);
      }
      var key' := GuardianKey(c, AgreedSecret(c, g', privateKey).value, packageID, shareID);
      KeyLength(c, AgreedSecret(c, g', privateKey).value, packageID, shareID);
      OpenedElsewhere(c, SealingKey(c, share, guardianPublicKey, stream), c.shareJson(share), aad,
                      stream[KEY_SIZE..], key', aad');
      var o := OpenCapsule(c, g', AgreedSecret(c, g', privateKey).value);
      if o.Ok? {
        assert Forgery(c, SealingKey(c, share, guardianPublicKey, stream), c.shareJson(share), aad,
                       key', o.value, aad', DrawnNonce(stream));
        assert DecryptGuardianShare(c, g', privateKey).Ok? <==> Accepts(c, g', o.value);
      }
    }
  }

  lemma KeyLength(c: Suite, shared: Bytes, packageID: string, shareID: string)
    requires DigestLaws(c)
    ensures |GuardianKey(c, shared, packageID, shareID)| == 32
  {
    hide Derive;
    DeriveLength(c, shared, c.utf8(packageID), c.utf8("sat20-guardian-wrap-v1|" + shareID), 32);
  }

  /** Unless this one ciphertext is forged under those keys and that nonce, it yields a share to nobody. */
  lemma ChangedIdsRefused(c: Suite, share: RecoveryShare, guardianPublicKey: Bytes, stream: Bytes,
                          packageID: string, shareID: string, privateKey: Bytes)
    requires Lawful(c)
    requires EncryptGuardianShare(c, share, guardianPublicKey, stream).Ok?
    requires packageID != share.packageID || shareID != share.checksum
    requires var g := EncryptGuardianShare(c, share, guardianPublicKey, stream).value.value;
             var g' := g.(packageID := packageID, shareID := shareID);
             AgreedSecret(c, g', privateKey).Ok? ==>
               !Forged(c, share, guardianPublicKey, stream, g',
                       GuardianKey(c, AgreedSecret(c, g', privateKey).value, packageID, shareID))
    ensures var g := EncryptGuardianShare(c, share, guardianPublicKey, stream).value.value;
            DecryptGuardianShare(c, g.(packageID := packageID, shareID := shareID), privateKey).Err?
  {
    hide EncryptGuardianShare, DecryptGuardianShare, GuardianAad, Forged, GuardianKey, AgreedSecret;
    ChangedIdsForge(c, share, guardianPublicKey, stream, packageID, shareID, privateKey);
    var g := EncryptGuardianShare(c, share, guardianPublicKey, stream).value.value;
    var result := DecryptGuardianShare(c, g.(packageID := packageID, shareID := shareID), privateKey);
    assert result.Ok? || result.Err?;
  }
}
