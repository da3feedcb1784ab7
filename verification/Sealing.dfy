// Sealing and the encrypted backup of sdk/account/crypto.go.

module Sealing {
  import opened Basics
  import opened Entropy
  import opened AccountTypes
  import opened AccountBackup
  import opened Base64
  import opened Text
  import opened Hkdf

  const BACKUP_DOMAIN := "sat20-account-backup-aad-v1"

  /** A drawn value and what is left of the random stream. */
  datatype Drawn<+T> = Drawn(value: T, rest: Bytes)

  function Draw(stream: Bytes, n: nat): Outcome<Drawn<Bytes>> {
    if n <= |stream| then Ok(Drawn(stream[..n], stream[n..])) else Err(EntropyExhausted)
  }

  datatype Sealed = Sealed(nonce: string, ciphertext: string)

  function SealBytes(c: Suite, key: Bytes, plaintext: Bytes, aad: Bytes, stream: Bytes): Outcome<Drawn<Sealed>> {
    if |key| != 32 then Err(InvalidRecoveryPackage)
    else
      var nonce :- Draw(stream, NONCE_SIZE);
      Ok(Drawn(Sealed(RawUrlEncode(nonce.value), RawUrlEncode(c.seal(key, nonce.value, plaintext, aad))), nonce.rest))
  }

  method SealWithReader(c: Suite, key: Bytes, plaintext: Bytes, aad: Bytes, random: Reader) returns (r: Outcome<Sealed>)
    modifies random
    ensures r.Ok? <==> SealBytes(c, key, plaintext, aad, old(random.stream)).Ok?
    ensures r.Ok? ==> Drawn(r.value, random.stream) == SealBytes(c, key, plaintext, aad, old(random.stream)).value
    ensures r.Err? ==> r.error == SealBytes(c, key, plaintext, aad, old(random.stream)).error
  {
    if |key| != 32 {
      return Err(InvalidRecoveryPackage);
    }
    var nonce := random.ReadFull(NONCE_SIZE);
    if nonce.None? {
      return Err(EntropyExhausted);
    }
    return Ok(Sealed(RawUrlEncode(nonce.value), RawUrlEncode(c.seal(key, nonce.value, plaintext, aad))));
  }

  function OpenSealed(c: Suite, key: Bytes, nonceText: string, ciphertextText: string, aad: Bytes): Outcome<Bytes> {
    var nonce, ciphertext := RawUrlDecode(nonceText), RawUrlDecode(ciphertextText);
    if nonce.None? || ciphertext.None? then Err(RecoveryFailed)
    else if |key| !in {16, 24, 32} || |nonce.value| != NONCE_SIZE then Err(RecoveryFailed)
    else
      match c.open(key, nonce.value, ciphertext.value, aad)
      case None => Err(RecoveryFailed)
      case Some(plaintext) => Ok(plaintext)
  }

  /** Sealing takes a 32-byte key and twelve random bytes, and its two texts spell the nonce and the sealed bytes. */
  lemma SealsExactly(c: Suite, key: Bytes, plaintext: Bytes, aad: Bytes, stream: Bytes)
    ensures SealBytes(c, key, plaintext, aad, stream).Ok? <==> |key| == 32 && |stream| >= 12
    ensures SealBytes(c, key, plaintext, aad, stream).Ok? ==>
              var s := SealBytes(c, key, plaintext, aad, stream).value;
              && s.rest == stream[12..] && RawUrlDecode(s.value.nonce) == Some(stream[..12])
              && RawUrlDecode(s.value.ciphertext) == Some(c.seal(key, stream[..12], plaintext, aad))
  {
    hide RawUrlEncode, RawUrlDecode;
    if |stream| >= 12 {
      RawUrlRoundTrip(stream[..12]);
      RawUrlRoundTrip(c.seal(key, stream[..12], plaintext, aad));
    }
  }

  /** Opening gives a text exactly when both parts decode, the nonce has twelve bytes, and the cipher opens it. */
  lemma OpensExactly(c: Suite, key: Bytes, nonce: string, ciphertext: string, aad: Bytes, p: Bytes)
    ensures OpenSealed(c, key, nonce, ciphertext, aad) == Ok(p) <==>
              && |key| in {16, 24, 32} && RawUrlDecode(nonce).Some? && |RawUrlDecode(nonce).value| == 12
              && RawUrlDecode(ciphertext).Some?
              && c.open(key, RawUrlDecode(nonce).value, RawUrlDecode(ciphertext).value, aad) == Some(p)
    ensures OpenSealed(c, key, nonce, ciphertext, aad).Err? ==>
              OpenSealed(c, key, nonce, ciphertext, aad).error == RecoveryFailed
  {
    hide RawUrlDecode;
  }

  /** What was sealed opens under the same key and associated data ... */
  lemma SealThenOpen(c: Suite, key: Bytes, plaintext: Bytes, aad: Bytes, stream: Bytes)
    requires AeadLaws(c)
    requires SealBytes(c, key, plaintext, aad, stream).Ok?
    ensures var s := SealBytes(c, key, plaintext, aad, stream).value.value;
            && OpenSealed(c, key, s.nonce, s.ciphertext, aad) == Ok(plaintext)
            && s.nonce != "" && s.ciphertext != ""
  {
    var nonce := stream[..NONCE_SIZE];
    RawUrlRoundTrip(nonce);
    RawUrlRoundTrip(c.seal(key, nonce, plaintext, aad));
  }

  /** ... and under other associated data it opens to a text exactly when that text is a forgery against the cipher. */
  lemma OpenedElsewhere(c: Suite, key: Bytes, plaintext: Bytes, aad: Bytes, stream: Bytes, key': Bytes, aad': Bytes)
    requires AeadLaws(c)
    requires SealBytes(c, key, plaintext, aad, stream).Ok? && aad' != aad && |key'| in {16, 24, 32}
    ensures var s := SealBytes(c, key, plaintext, aad, stream).value.value;
            var o := OpenSealed(c, key', s.nonce, s.ciphertext, aad');
            forall p :: o == Ok(p) <==> Forgery(c, key, plaintext, aad, key', p, aad', stream[..NONCE_SIZE])
  {
    var nonce := stream[..NONCE_SIZE];
    RawUrlRoundTrip(nonce);
    RawUrlRoundTrip(c.seal(key, nonce, plaintext, aad));
  }

  // ---- The locator's associated data ----

  function AadText(l: Locator, domain: string): string {
    domain + "|" + (Decimal(l.version) + "|" + (l.accountID + "|" + (l.packageID + "|" + l.recoveryMode)))
  }

  function LocatorAad(c: Suite, l: Locator, domain: string): Bytes { c.utf8(AadText(l, domain)) }

  predicate AllHex(s: string) { forall i :: 0 <= i < |s| ==> IsHexDigit(s[i]) }

  /** Lower-case hex ids of any length; the version is any number. */
  predicate HexIds(l: Locator) { AllHex(l.accountID) && AllHex(l.packageID) }

  lemma AadTextInjective(l: Locator, m: Locator, domain: string)
    requires HexIds(l) && HexIds(m)
    requires AadText(l, domain) == AadText(m, domain)
    ensures l == m
  {
    hide Decimal;
    var x := Decimal(l.version) + "|" + (l.accountID + "|" + (l.packageID + "|" + l.recoveryMode));
    var y := Decimal(m.version) + "|" + (m.accountID + "|" + (m.packageID + "|" + m.recoveryMode));
    assert (domain + "|" + x)[|domain| + 1..] == x && (domain + "|" + y)[|domain| + 1..] == y;
    HexBarFree(Decimal(l.version));
    HexBarFree(Decimal(m.version));
    SplitAtBar(Decimal(l.version), l.accountID + "|" + (l.packageID + "|" + l.recoveryMode),
               Decimal(m.version), m.accountID + "|" + (m.packageID + "|" + m.recoveryMode));
    DecimalInjective(l.version, m.version);
    HexBarFree(l.accountID);
    HexBarFree(m.accountID);
    SplitAtBar(l.accountID, l.packageID + "|" + l.recoveryMode, m.accountID, m.packageID + "|" + m.recoveryMode);
    HexBarFree(l.packageID);
    HexBarFree(m.packageID);
    SplitAtBar(l.packageID, l.recoveryMode, m.packageID, m.recoveryMode);
  }

  /** Without the hex restriction two locators can share their associated data. */
  lemma AadTextAmbiguous(domain: string)
    ensures var l, m := Locator(1, "a|b", "c", MODE_2OF2), Locator(1, "a", "b|c", MODE_2OF2);
            l != m && AadText(l, domain) == AadText(m, domain)
  {
    var l, m := Locator(1, "a|b", "c", MODE_2OF2), Locator(1, "a", "b|c", MODE_2OF2);
    assert "a|b" + "|" + ("c" + "|" + MODE_2OF2) == "a" + "|" + ("b|c" + "|" + MODE_2OF2);
    assert l.accountID != m.accountID;
  }

  // ---- The encrypted backup ----

  function DeriveBackupKey(c: Suite, secret: Bytes, l: Locator): Bytes {
    Derive(c, secret, c.utf8(l.packageID), c.utf8("sat20-account-backup-v1|" + l.accountID), 32)
  }

  /** The info is the account's, the salt the package's. */
  lemma BackupKeyIs(c: Suite, secret: Bytes, l: Locator)
    requires DigestLaws(c)
    ensures DeriveBackupKey(c, secret, l) ==
              c.hmac(c.hmac(c.utf8(l.packageID), secret), c.utf8("sat20-account-backup-v1|" + l.accountID) + [1])
  {
    hide Derive;
    DerivedKey(c, secret, c.utf8(l.packageID), c.utf8("sat20-account-backup-v1|" + l.accountID));
  }

  /** Another secret, package or account has another key, unless one of the two HMACs collides. */
  lemma BackupKeysApart(c: Suite, secret: Bytes, l: Locator, secret': Bytes, m: Locator)
    requires DigestLaws(c) && TextLaws(c) && DeriveBackupKey(c, secret, l) == DeriveBackupKey(c, secret', m)
    ensures || (secret == secret' && l.packageID == m.packageID && l.accountID == m.accountID)
            || Collide(c, c.utf8(l.packageID), secret, c.utf8(m.packageID), secret')
            || Collide(c, c.hmac(c.utf8(l.packageID), secret), c.utf8("sat20-account-backup-v1|" + l.accountID) + [1],
                       c.hmac(c.utf8(m.packageID), secret'), c.utf8("sat20-account-backup-v1|" + m.accountID) + [1])
  {
    hide Derive, Collide;
    var p := "sat20-account-backup-v1|";
    KeysApart(c, secret, c.utf8(l.packageID), c.utf8(p + l.accountID), secret', c.utf8(m.packageID),
              c.utf8(p + m.accountID));
    assert (p + l.accountID)[|p|..] == l.accountID && (p + m.accountID)[|p|..] == m.accountID;
  }

  function EncryptBackup(c: Suite, secret: Bytes, l: Locator, b: Backup, stream: Bytes): Outcome<Drawn<EncryptedBlob>> {
    var s :- SealBytes(c, DeriveBackupKey(c, secret, l), c.backupJson(b), LocatorAad(c, l, BACKUP_DOMAIN), stream);
    Ok(Drawn(EncryptedBlob("aes-256-gcm", s.value.nonce, s.value.ciphertext), s.rest))
  }

  function DecryptBackup(c: Suite, secret: Bytes, l: Locator, e: EncryptedBlob): Outcome<Backup> {
    if !ValidBlob(e) then Err(InvalidRecoveryPackage)
    else
      var plaintext :- OpenSealed(c, DeriveBackupKey(c, secret, l), e.nonce, e.ciphertext,
                                  LocatorAad(c, l, BACKUP_DOMAIN));
      match c.parseBackup(plaintext)
      case None => Err(RecoveryFailed)
      case Some(b) => NormalizeBackup(c, b)
  }

  /** The buffers that held the key and the plaintext end as zeros. */
  method EncryptBackupWithReader(c: Suite, secret: Bytes, l: Locator, b: Backup, random: Reader)
    returns (r: Outcome<EncryptedBlob>, ghost key: array<byte>, ghost plaintext: array<byte>)
    requires DigestLaws(c)
    modifies random
    ensures r.Ok? <==> EncryptBackup(c, secret, l, b, old(random.stream)).Ok?
    ensures r.Ok? ==> Drawn(r.value, random.stream) == EncryptBackup(c, secret, l, b, old(random.stream)).value
    ensures r.Err? ==> r.error == EncryptBackup(c, secret, l, b, old(random.stream)).error
    ensures fresh(key) && fresh(plaintext) && key.Length >= 32 && plaintext.Length == |c.backupJson(b)|
    ensures forall i :: 0 <= i < key.Length ==> key[i] == 0
    ensures forall i :: 0 <= i < plaintext.Length ==> plaintext[i] == 0
  {
    var text := Fill(c.backupJson(b));
    var derived, prk, previous :=
      HkdfSha256(c, secret, c.utf8(l.packageID), c.utf8("sat20-account-backup-v1|" + l.accountID), 32);
    key, plaintext := derived, text;
    var s := SealWithReader(c, derived[..32], text[..], LocatorAad(c, l, BACKUP_DOMAIN), random);
    Zero(derived);
    Zero(text);
    r := if s.Err? then Err(s.error) else Ok(EncryptedBlob("aes-256-gcm", s.value.nonce, s.value.ciphertext));
  }

  /**
   * An encrypted backup is the backup's JSON sealed under the locator's key and text: domain, version, account,
   * package and mode between bars.
   */
  lemma EncryptedSays(c: Suite, secret: Bytes, l: Locator, b: Backup, stream: Bytes)
    requires DigestLaws(c) && |stream| >= 12
    ensures EncryptBackup(c, secret, l, b, stream).Ok?
    ensures var e := EncryptBackup(c, secret, l, b, stream).value;
            var prk := c.hmac(c.utf8(l.packageID), secret);
            var key := c.hmac(prk, c.utf8("sat20-account-backup-v1|" + l.accountID) + [1]);
            var text := "sat20-account-backup-aad-v1|" + Decimal(l.version) + "|" + l.accountID + "|" + l.packageID
                        + "|" + l.recoveryMode;
            && e.rest == stream[12..] && e.value.algorithm == "aes-256-gcm"
            && RawUrlDecode(e.value.nonce) == Some(stream[..12])
            && RawUrlDecode(e.value.ciphertext) == Some(c.seal(key, stream[..12], c.backupJson(b), c.utf8(text)))
  {
    hide Derive, Decimal, RawUrlDecode, RawUrlEncode;
    EncryptSucceeds(c, secret, l, b, stream);
    BackupKeyIs(c, secret, l);
    SealsExactly(c, DeriveBackupKey(c, secret, l), c.backupJson(b), LocatorAad(c, l, BACKUP_DOMAIN), stream);
    assert AadText(l, BACKUP_DOMAIN) ==
          "sat20-account-backup-aad-v1|" + Decimal(l.version) + "|" + l.accountID + "|" + l.packageID
          + "|" + l.recoveryMode;
  }

  /** Decryption inverts encryption up to normalisation, errors of normalisation included. */
  lemma EncryptThenDecrypt(c: Suite, secret: Bytes, l: Locator, b: Backup, stream: Bytes)
    requires Lawful(c) && EncryptBackup(c, secret, l, b, stream).Ok?
    ensures var e := EncryptBackup(c, secret, l, b, stream).value.value;
            ValidBlob(e) && DecryptBackup(c, secret, l, e) == NormalizeBackup(c, b)
  {
    hide Derive, NormalizeBackup;
    SealThenOpen(c, DeriveBackupKey(c, secret, l), c.backupJson(b), LocatorAad(c, l, BACKUP_DOMAIN), stream);
  }

  /** Encryption fails only for want of twelve random bytes. */
  lemma EncryptSucceeds(c: Suite, secret: Bytes, l: Locator, b: Backup, stream: Bytes)
    requires DigestLaws(c)
    ensures EncryptBackup(c, secret, l, b, stream).Ok? <==> |stream| >= NONCE_SIZE
  {
    hide Derive;
    DeriveLength(c, secret, c.utf8(l.packageID), c.utf8("sat20-account-backup-v1|" + l.accountID), 32);
  }

  /** A text that decryption accepts once it is opened. */
  predicate Acceptable(c: Suite, p: Bytes) { c.parseBackup(p).Some? && NormalizeBackup(c, c.parseBackup(p).value).Ok? }

  /**
   * Decrypting under any other locator with hex ids, with any secret, succeeds exactly when the cipher has
   * a forgery of this very ciphertext, under the two derived keys and the drawn nonce, that reads as a backup.
   */
  lemma OtherLocatorRefused(c: Suite, secret: Bytes, l: Locator, b: Backup, stream: Bytes, secret': Bytes, m: Locator)
    requires Lawful(c) && EncryptBackup(c, secret, l, b, stream).Ok?
    requires HexIds(l) && HexIds(m) && l != m
    ensures DecryptBackup(c, secret', m, EncryptBackup(c, secret, l, b, stream).value.value).Ok? <==>
              exists p :: Acceptable(c, p)
                          && Forgery(c, DeriveBackupKey(c, secret, l), c.backupJson(b), LocatorAad(c, l, BACKUP_DOMAIN),
                                     DeriveBackupKey(c, secret', m), p, LocatorAad(c, m, BACKUP_DOMAIN),
                                     stream[..NONCE_SIZE])
  {
    hide Derive, NormalizeBackup, AadText, Forgery;
    if AadText(l, BACKUP_DOMAIN) == AadText(m, BACKUP_DOMAIN) {
      AadTextInjective(l, m, BACKUP_DOMAIN);
    }
    DeriveLength(c, secret', c.utf8(m.packageID), c.utf8("sat20-account-backup-v1|" + m.accountID), 32);
    EncryptThenDecrypt(c, secret, l, b, stream);
    OpenedElsewhere(c, DeriveBackupKey(c, secret, l), c.backupJson(b), LocatorAad(c, l, BACKUP_DOMAIN), stream,
                    DeriveBackupKey(c, secret', m), LocatorAad(c, m, BACKUP_DOMAIN));
    var e := EncryptBackup(c, secret, l, b, stream).value.value;
    var o := OpenSealed(c, DeriveBackupKey(c, secret', m), e.nonce, e.ciphertext, LocatorAad(c, m, BACKUP_DOMAIN));
    if o.Ok? {
      assert o == Ok(o.value);
    }
  }

  /** Unless this one ciphertext is forged under those keys and that nonce, it fails. */
  lemma OtherLocatorFails(c: Suite, secret: Bytes, l: Locator, b: Backup, stream: Bytes, secret': Bytes, m: Locator)
    requires Lawful(c) && EncryptBackup(c, secret, l, b, stream).Ok?
    requires HexIds(l) && HexIds(m) && l != m
    requires forall p :: !Forgery(c, DeriveBackupKey(c, secret, l), c.backupJson(b), LocatorAad(c, l, BACKUP_DOMAIN),
                                  DeriveBackupKey(c, secret', m), p, LocatorAad(c, m, BACKUP_DOMAIN),
                                  stream[..NONCE_SIZE])
    ensures DecryptBackup(c, secret', m, EncryptBackup(c, secret, l, b, stream).value.value).Err?
  {
    hide Derive, NormalizeBackup, AadText, Forgery, DecryptBackup;
    OtherLocatorRefused(c, secret, l, b, stream, secret', m);
    var result := DecryptBackup(c, secret', m, EncryptBackup(c, secret, l, b, stream).value.value);
    assert result.Ok? || result.Err?;
  }
}
