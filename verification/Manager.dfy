// Package creation, validation and recovery: sdk/account/manager.go.

module Manager {
  import opened Basics
  import opened Entropy
  import opened AccountTypes
  import opened AccountBackup
  import opened AccountShares
  import opened Text
  import opened Hkdf
  import opened Sealing
  import Guardian

  const QUESTION_COUNT := 3
  const PACKAGE_ID_SIZE := 16

  // ---- Validation ----

  function ValidateRecoveryPackage(c: Suite, p: RecoveryPackage): Outcome<()> {
    var _ :- ValidateEnvelope(p.envelope);
    var _ :- ValidateManifest(p.manifest, p.envelope.locator);
    var id := p.envelope.locator.packageID;
    var hash := HashEnvelope(c, p.envelope);
    if hash != Ok(p.manifest.envelopeHash) then Err(InvalidRecoveryPackage)
    else if ValidateShare(c, p.userShare).Err? || p.userShare.role != ROLE_USER || p.userShare.packageID != id then
      Err(InvalidRecoveryPackage)
    else if p.dkvsCapsule.version != VERSION || p.dkvsCapsule.packageID != id || p.knowledge.packageID != id then
      Err(InvalidRecoveryPackage)
    else if p.envelope.locator.recoveryMode == MODE_2OF3 then ValidateGuardianPart(c, p)
    else Ok(())
  }

  function ValidateGuardianPart(c: Suite, p: RecoveryPackage): Outcome<()> {
    if p.guardianCapsule.None? || p.manifest.guardian.None? then Err(InvalidRecoveryPackage)
    else
      var capsule, reference := p.guardianCapsule.value, p.manifest.guardian.value;
      if HashGuardianCapsule(c, capsule) != Ok(reference.capsuleHash) || capsule.shareID != reference.shareID then
        Err(InvalidRecoveryPackage)
      else Ok(())
  }

  /** Exactly which packages validate, field by field. */
  lemma ValidatesExactly(c: Suite, p: RecoveryPackage)
    ensures ValidateRecoveryPackage(c, p).Ok? <==>
              var l := p.envelope.locator;
              && p.envelope.version == 1 && Locates(l) && ValidBlob(p.envelope.encryptedBackup)
              && p.manifest.version == 1 && p.manifest.locator == l && p.manifest.threshold == 2
              && p.manifest.total == (if l.recoveryMode == "2of3" then 3 else 2)
              && p.manifest.envelopeHash == c.envelopeDigest(p.envelope) && ValidHex(p.manifest.envelopeHash, 64)
              && ValidateShare(c, p.userShare).Ok?
              && p.userShare.index == 1 && p.userShare.packageID == l.packageID
              && p.dkvsCapsule.version == 1 && p.dkvsCapsule.packageID == p.knowledge.packageID == l.packageID
              && (l.recoveryMode == "2of3" ==>
                    && p.guardianCapsule.Some? && p.manifest.guardian.Some? && ValidCapsule(p.guardianCapsule.value)
                    && p.manifest.guardian.value.capsuleHash == c.capsuleDigest(p.guardianCapsule.value)
                    && p.manifest.guardian.value.shareID == p.guardianCapsule.value.shareID)
  {
    hide ValidHex, Locates, ValidateShare, ValidateLocator, ValidBlob, ValidCapsule;
    LocatorValidExactly(p.envelope.locator);
    ShareValidExactly(c, p.userShare);
  }

  /** A validated package in which only the envelope is replaced validates only if the digests collide. */
  lemma ReplacedEnvelope(c: Suite, p: RecoveryPackage, e: Envelope)
    requires ValidateRecoveryPackage(c, p).Ok? && ValidateRecoveryPackage(c, p.(envelope := e)).Ok?
    ensures e.locator == p.envelope.locator && c.envelopeDigest(e) == c.envelopeDigest(p.envelope)
  {
    hide ValidateRecoveryPackage, ValidHex, Locates, ValidateShare, ValidBlob, ValidCapsule;
    ValidatesExactly(c, p);
    ValidatesExactly(c, p.(envelope := e));
  }

  /** The same of the guardian's capsule. */
  lemma ReplacedCapsule(c: Suite, p: RecoveryPackage, g: GuardianCapsule)
    requires p.envelope.locator.recoveryMode == MODE_2OF3 && ValidateRecoveryPackage(c, p).Ok?
    requires ValidateRecoveryPackage(c, p.(guardianCapsule := Some(g))).Ok?
    ensures g.shareID == p.guardianCapsule.value.shareID
    ensures c.capsuleDigest(g) == c.capsuleDigest(p.guardianCapsule.value)
  {
    hide ValidateRecoveryPackage, ValidHex, Locates, ValidateShare, ValidBlob, ValidCapsule;
    ValidatesExactly(c, p);
    ValidatesExactly(c, p.(guardianCapsule := Some(g)));
  }

  // ---- Creation as a function of the options, the random stream and the clock ----

  function CheckOptions(c: Suite, o: CreateOptions): Outcome<Backup> {
    if !ValidHex(o.accountID, 64) then Err(InvalidAccountID)
    else
      var backup :- NormalizeBackup(c, o.backup);
      if o.recoveryMode != MODE_2OF2 && o.recoveryMode != MODE_2OF3 then Err(InvalidRecoveryPackage)
      else if |o.questions| != QUESTION_COUNT then Err(QuestionsRequired)
      else if o.recoveryMode == MODE_2OF3 && (|o.guardianPublicKey| != 32 || !ValidHex(o.guardianMailboxID, 64)) then
        Err(GuardianRequired)
      else Ok(backup)
  }

  /** What the options must be; a mailbox and a key only in 2-of-3 mode. */
  predicate GoodOptions(c: Suite, o: CreateOptions) {
    && ValidHex(o.accountID, 64) && NormalizeBackup(c, o.backup).Ok?
    && o.recoveryMode in {"2of2", "2of3"} && |o.questions| == 3
    && (o.recoveryMode == "2of3" ==> |o.guardianPublicKey| == 32 && ValidHex(o.guardianMailboxID, 64))
  }

  /** Exactly which options are acceptable, and the first thing complained about. */
  lemma OptionsExactly(c: Suite, o: CreateOptions)
    ensures CheckOptions(c, o).Ok? <==> GoodOptions(c, o)
    ensures CheckOptions(c, o).Ok? ==> CheckOptions(c, o) == NormalizeBackup(c, o.backup)
    ensures CheckOptions(c, o) == Err(InvalidAccountID) <==> !ValidHex(o.accountID, 64)
    ensures CheckOptions(c, o) == Err(InvalidBackup) <==>
              ValidHex(o.accountID, 64) && NormalizeBackup(c, o.backup).Err?
    ensures CheckOptions(c, o) == Err(GuardianRequired) <==>
              && !GoodOptions(c, o)
              && GoodOptions(c, o.(guardianPublicKey := seq(32, _ => 0), guardianMailboxID := seq(64, _ => '0')))
  {
    hide NormalizeBackup, ValidHex;
    assert ValidHex(seq(64, _ => '0'), 64) by { Zeros(64); }
    assert NormalizeBackup(c, o.backup).Err? ==> NormalizeBackup(c, o.backup).error == InvalidBackup by {
      BackupNormalized(c, o.backup);
    }
  }

  lemma Zeros(n: nat)
    requires n % 2 == 0
    ensures ValidHex(seq(n, _ => '0'), n)
  {
  }

  function LocatorFor(o: CreateOptions, packageID: string): Locator {
    Locator(VERSION, o.accountID, packageID, o.recoveryMode)
  }

  /** Everything in the package but the guardian's part. */
  function BasePackage(c: Suite, o: CreateOptions, backup: Backup, packageID: string, secret: Bytes,
                       shares: seq<RecoveryShare>, stream: Bytes, now: int): Outcome<Drawn<RecoveryPackage>>
    requires |shares| == ShareTotal(o.recoveryMode)
  {
    var locator := LocatorFor(o, packageID);
    var encrypted :- EncryptBackup(c, secret, locator, backup, stream);
    var envelope := Envelope(VERSION, locator, encrypted.value);
    match c.knowledge(packageID, shares[1], o.questions, encrypted.rest)
    case None => Err(KnowledgeFailed)
    case Some(k) =>
      var hash :- HashEnvelope(c, envelope);
      var manifest := Manifest(VERSION, locator, 2, |shares|, hash, now, None);
      Ok(Drawn(RecoveryPackage(envelope, manifest, shares[0], k.0, k.1, None), Rest(encrypted.rest, k.2)))
  }

  function Rest(stream: Bytes, used: nat): Bytes { if used <= |stream| then stream[used..] else [] }

  function WithGuardian(c: Suite, o: CreateOptions, base: RecoveryPackage, share: RecoveryShare, stream: Bytes)
    : Outcome<Drawn<RecoveryPackage>>
  {
    var capsule :- Guardian.EncryptGuardianShare(c, share, o.guardianPublicKey, stream);
    var hash :- HashGuardianCapsule(c, capsule.value);
    var reference := GuardianReference(o.guardianMailboxID, capsule.value.shareID, hash);
    Ok(Drawn(base.(manifest := base.manifest.(guardian := Some(reference)), guardianCapsule := Some(capsule.value)),
             capsule.rest))
  }

  /** The package before its closing self-check. */
  function Assembled(c: Suite, o: CreateOptions, backup: Backup, packageID: string, secret: Bytes, stream: Bytes,
                     now: int)
    : Outcome<Drawn<RecoveryPackage>>
  {
    var shares :- SplitSecret(c, secret, packageID, o.recoveryMode, stream);
    var base :- BasePackage(c, o, backup, packageID, secret, shares.value, shares.rest, now);
    if o.recoveryMode == MODE_2OF3 then WithGuardian(c, o, base.value, shares.value[2], base.rest) else Ok(base)
  }

  function Checked(c: Suite, p: Drawn<RecoveryPackage>): Outcome<Drawn<RecoveryPackage>> {
    var _ :- ValidateRecoveryPackage(c, p.value);
    Ok(p)
  }

  datatype Created = Created(package: RecoveryPackage, secret: Bytes)

  function CreatePackage(c: Suite, o: CreateOptions, stream: Bytes, now: int): Outcome<Created> {
    var backup :- CheckOptions(c, o);
    var id :- Draw(stream, PACKAGE_ID_SIZE);
    var secret :- Draw(id.rest, ACCOUNT_SECRET_SIZE);
    var p :- Assembled(c, o, backup, HexOf(id.value), secret.value, secret.rest, now);
    var checked :- Checked(c, p);
    Ok(Created(checked.value, secret.value))
  }

  // ---- Creation over a secret buffer ----

  method AssembleWithReader(c: Suite, o: CreateOptions, backup: Backup, packageID: string, secret: array<byte>,
                            random: Reader, now: int) returns (r: Outcome<RecoveryPackage>)
    requires DigestLaws(c)
    modifies random
    ensures r.Ok? <==> Assembled(c, o, backup, packageID, secret[..], old(random.stream), now).Ok?
    ensures r.Ok? ==> r.value == Assembled(c, o, backup, packageID, secret[..], old(random.stream), now).value.value
    ensures r.Err? ==> r.error == Assembled(c, o, backup, packageID, secret[..], old(random.stream), now).error
  {
    hide SplitSecret, EncryptBackup, Guardian.EncryptGuardianShare, HashEnvelope, HashGuardianCapsule;
    var shares := SplitSecretWithReader(c, secret[..], packageID, o.recoveryMode, random);
    if shares.Err? {
      return Err(shares.error);
    }
    var locator := LocatorFor(o, packageID);
    var encrypted, _, _ := EncryptBackupWithReader(c, secret[..], locator, backup, random);
    if encrypted.Err? {
      return Err(encrypted.error);
    }
    var envelope := Envelope(VERSION, locator, encrypted.value);
    var knowledge := c.knowledge(packageID, shares.value[1], o.questions, random.stream);
    if knowledge.None? {
      return Err(KnowledgeFailed);
    }
    random.stream := Rest(random.stream, knowledge.value.2);
    var hash := HashEnvelope(c, envelope);
    if hash.Err? {
      return Err(hash.error);
    }
    var manifest := Manifest(VERSION, locator, 2, |shares.value|, hash.value, now, None);
    var result := RecoveryPackage(envelope, manifest, shares.value[0], knowledge.value.0, knowledge.value.1, None);
    if o.recoveryMode == MODE_2OF3 {
      var capsule := Guardian.EncryptWithReader(c, shares.value[2], o.guardianPublicKey, random);
      if capsule.Err? {
        return Err(capsule.error);
      }
      var capsuleHash := HashGuardianCapsule(c, capsule.value);
      if capsuleHash.Err? {
        return Err(capsuleHash.error);
      }
      var reference := GuardianReference(o.guardianMailboxID, capsule.value.shareID, capsuleHash.value);
      manifest := manifest.(guardian := Some(reference));
      result := result.(manifest := manifest, guardianCapsule := Some(capsule.value));
    }
    return Ok(result);
  }

  /**
   * The secret buffer is handed out on success. On failure it is wiped, except that a
   * random source that runs dry while filling it leaves what it had delivered.
   */
  method CreateRecoveryPackageWithSecret(c: Suite, o: CreateOptions, random: Reader, now: int)
    returns (r: Outcome<RecoveryPackage>, secret: array<byte>)
    requires DigestLaws(c)
    modifies random
    ensures fresh(secret)
    ensures r.Ok? <==> CreatePackage(c, o, old(random.stream), now).Ok?
    ensures r.Ok? ==> Created(r.value, secret[..]) == CreatePackage(c, o, old(random.stream), now).value
    ensures r.Err? ==> r.error == CreatePackage(c, o, old(random.stream), now).error
    ensures r.Err? && |old(random.stream)| >= PACKAGE_ID_SIZE + ACCOUNT_SECRET_SIZE ==>
              forall i :: 0 <= i < secret.Length ==> secret[i] == 0
    ensures CheckOptions(c, o).Ok?
            && PACKAGE_ID_SIZE <= |old(random.stream)| < PACKAGE_ID_SIZE + ACCOUNT_SECRET_SIZE ==>
              && r == Err(EntropyExhausted) && secret.Length == ACCOUNT_SECRET_SIZE
              && secret[..|old(random.stream)| - PACKAGE_ID_SIZE] == old(random.stream)[PACKAGE_ID_SIZE..]
    ensures CheckOptions(c, o).Err? || |old(random.stream)| < PACKAGE_ID_SIZE ==> secret.Length == 0
  {
    hide Assembled, ValidateRecoveryPackage, CheckOptions, HexOf;
    secret := new byte[0];
    var backup := CheckOptions(c, o);
    if backup.Err? {
      return Err(backup.error), secret;
    }
    var id := random.ReadFull(PACKAGE_ID_SIZE);
    if id.None? {
      return Err(EntropyExhausted), secret;
    }
    secret := new byte[ACCOUNT_SECRET_SIZE];
    var ok := random.ReadInto(secret);
    if !ok {
      return Err(EntropyExhausted), secret;
    }
    var result := AssembleWithReader(c, o, backup.value, HexOf(id.value), secret, random, now);
    if result.Err? {
      Zero(secret);
      return Err(result.error), secret;
    }
    var check := ValidateRecoveryPackage(c, result.value);
    if check.Err? {
      Zero(secret);
      return Err(check.error), secret;
    }
    return Ok(result.value), secret;
  }

  // ---- Recovery ----

  datatype Recovered = Recovered(backup: Backup, secret: Bytes)

  function RecoverAccount(c: Suite, e: Envelope, shares: seq<RecoveryShare>): Outcome<Recovered> {
    var _ :- ValidateEnvelope(e);
    var secret :- CombineShares(c, shares);
    var backup :- DecryptBackup(c, secret, e.locator, e.encryptedBackup);
    Ok(Recovered(backup, secret))
  }

  /** The shares of a valid envelope combine, whether or not the backup then decrypts. */
  predicate Combines(c: Suite, e: Envelope, shares: seq<RecoveryShare>) {
    ValidateEnvelope(e).Ok? && CombineShares(c, shares).Ok?
  }

  /** The envelope's backup under a secret, if there is one. */
  function Opens(c: Suite, e: Envelope, secret: Outcome<Bytes>): Outcome<Recovered> {
    if secret.Err? then Err(secret.error)
    else match DecryptBackup(c, secret.value, e.locator, e.encryptedBackup)
      case Ok(backup) => Ok(Recovered(backup, secret.value))
      case Err(error) => Err(error)
  }

  /**
   * Recovery succeeds exactly for a valid envelope, two or more valid shares of one package and size with
   * different indexes, and a backup that decrypts under the secret the first two give.
   */
  lemma RecoversExactly(c: Suite, e: Envelope, shares: seq<RecoveryShare>)
    ensures RecoverAccount(c, e, shares).Ok? <==>
              && e.version == 1 && Locates(e.locator) && ValidBlob(e.encryptedBackup)
              && |shares| >= 2
              && (forall i :: 0 <= i < |shares| ==> ValidateShare(c, shares[i]).Ok?)
              && (forall i, j :: 0 <= i < j < |shares| ==>
                    && shares[i].packageID == shares[j].packageID && shares[i].total == shares[j].total
                    && shares[i].index != shares[j].index)
              && Opens(c, e, CombineShares(c, shares[..2])).Ok?
    ensures RecoverAccount(c, e, shares).Ok? ==>
              RecoverAccount(c, e, shares) == Opens(c, e, CombineShares(c, shares[..2]))
  {
    hide CombineShares, DecryptBackup, ValidateLocator, Locates, ValidateShare, ValidBlob;
    LocatorValidExactly(e.locator);
    CombinesExactly(c, shares);
    if |shares| >= 2 {
      CombinesExactly(c, shares[..2]);
      assert forall i :: 0 <= i < 2 ==> shares[..2][i] == shares[i];
    }
  }

  /** RecoverAccount over the secret's buffer: handed out on success, wiped when the backup does not decrypt. */
  method RecoverWithBuffer(c: Suite, e: Envelope, shares: seq<RecoveryShare>)
    returns (r: Outcome<Backup>, secret: array<byte>)
    ensures fresh(secret)
    ensures r.Ok? <==> RecoverAccount(c, e, shares).Ok?
    ensures r.Ok? ==> Recovered(r.value, secret[..]) == RecoverAccount(c, e, shares).value
    ensures r.Err? ==> r.error == RecoverAccount(c, e, shares).error
    ensures secret.Length == if Combines(c, e, shares) then ACCOUNT_SECRET_SIZE else 0
    ensures r.Err? ==> forall i :: 0 <= i < secret.Length ==> secret[i] == 0
  {
    hide DecryptBackup, CombineShares, ValidateEnvelope;
    secret := new byte[0];
    var valid := ValidateEnvelope(e);
    if valid.Err? {
      return Err(valid.error), secret;
    }
    var combined := CombineShares(c, shares);
    if combined.Err? {
      return Err(combined.error), secret;
    }
    CombinedSize(c, shares);
    secret := Fill(combined.value);
    var backup := DecryptBackup(c, secret[..], e.locator, e.encryptedBackup);
    if backup.Err? {
      Zero(secret);
      return Err(backup.error), secret;
    }
    return Ok(backup.value), secret;
  }

  lemma CombinedSize(c: Suite, shares: seq<RecoveryShare>)
    requires CombineShares(c, shares).Ok?
    ensures |CombineShares(c, shares).value| == ACCOUNT_SECRET_SIZE
  {
  }

  /** What assembling leaves in the package, as far as validation and recovery look at it. */
  ghost predicate Faithful(c: Suite, o: CreateOptions, backup: Backup, packageID: string, secret: Bytes,
                           shares: seq<RecoveryShare>, p: RecoveryPackage)
  {
    && |shares| == ShareTotal(o.recoveryMode)
    && ValidateEnvelope(p.envelope).Ok?
    && p.envelope.locator == LocatorFor(o, packageID)
    && DecryptBackup(c, secret, p.envelope.locator, p.envelope.encryptedBackup) == NormalizeBackup(c, backup)
    && p.userShare == shares[0]
    && p.manifest.(guardian := None) ==
         Manifest(VERSION, p.envelope.locator, 2, ShareTotal(o.recoveryMode), c.envelopeDigest(p.envelope),
                  p.manifest.createdAt, None)
    && p.dkvsCapsule.version == VERSION && p.dkvsCapsule.packageID == packageID && p.knowledge.packageID == packageID
  }

  lemma BaseFaithful(c: Suite, o: CreateOptions, backup: Backup, packageID: string, secret: Bytes,
                     shares: seq<RecoveryShare>, stream: Bytes, now: int)
    requires Lawful(c) && |shares| == ShareTotal(o.recoveryMode)
    requires BasePackage(c, o, backup, packageID, secret, shares, stream, now).Ok?
    ensures Faithful(c, o, backup, packageID, secret, shares,
                     BasePackage(c, o, backup, packageID, secret, shares, stream, now).value.value)
  {
    hide EncryptBackup, DecryptBackup, NormalizeBackup, ValidateEnvelope;
    var locator := LocatorFor(o, packageID);
    Sealing.EncryptThenDecrypt(c, secret, locator, backup, stream);
  }

  lemma AssembledFaithful(c: Suite, o: CreateOptions, backup: Backup, packageID: string, secret: Bytes, stream: Bytes,
                          now: int)
    requires Lawful(c) && Assembled(c, o, backup, packageID, secret, stream, now).Ok?
    ensures var shares := SplitSecret(c, secret, packageID, o.recoveryMode, stream);
            var p := Assembled(c, o, backup, packageID, secret, stream, now).value.value;
            && shares.Ok?
            && Faithful(c, o, backup, packageID, secret, shares.value.value, p)
            && (o.recoveryMode == MODE_2OF3 ==>
                  exists s: Bytes ::
                    var g := Guardian.EncryptGuardianShare(c, shares.value.value[2], o.guardianPublicKey, s);
                    && g.Ok? && p.guardianCapsule == Some(g.value.value)
                    && ValidateGuardianPart(c, p).Ok?)
  {
    hide SplitSecret, DecryptBackup, NormalizeBackup, ValidateEnvelope, BasePackage, Guardian.EncryptGuardianShare;
    var shares := SplitSecret(c, secret, packageID, o.recoveryMode, stream).value;
    BaseFaithful(c, o, backup, packageID, secret, shares.value, shares.rest, now);
    if o.recoveryMode == MODE_2OF3 {
      var base := BasePackage(c, o, backup, packageID, secret, shares.value, shares.rest, now).value;
      assert Guardian.EncryptGuardianShare(c, shares.value[2], o.guardianPublicKey, base.rest).Ok?;
    }
  }

  lemma SplitFits(c: Suite, secret: Bytes, packageID: string, mode: string, stream: Bytes)
    requires SplitSecret(c, secret, packageID, mode, stream).Ok?
    ensures mode in {MODE_2OF2, MODE_2OF3} && |stream| >= |secret|
  {
    hide Wrapped;
  }

  /** The closing self-check never refuses: every assembled package validates. */
  lemma AssembledValidates(c: Suite, o: CreateOptions, backup: Backup, packageID: string, secret: Bytes,
                           stream: Bytes, now: int)
    requires Lawful(c) && ValidHex(packageID, 32) && |secret| == ACCOUNT_SECRET_SIZE
    requires Assembled(c, o, backup, packageID, secret, stream, now).Ok?
    ensures ValidateRecoveryPackage(c, Assembled(c, o, backup, packageID, secret, stream, now).value.value) == Ok(())
  {
    hide SplitSecret, Assembled, DecryptBackup, NormalizeBackup, ValidateShare, Guardian.EncryptGuardianShare,
         ValidHex, Shamir.Share, ShareChecksum, Base64.RawUrlEncode;
    AssembledFaithful(c, o, backup, packageID, secret, stream, now);
    SplitFits(c, secret, packageID, o.recoveryMode, stream);
    SplitSucceeds(c, secret, packageID, o.recoveryMode, stream);
    var p := Assembled(c, o, backup, packageID, secret, stream, now).value.value;
    assert ValidHex(c.envelopeDigest(p.envelope), 64);
    assert p.manifest.envelopeHash == c.envelopeDigest(p.envelope);
  }

  /**
   * Two of the package's shares, in any order, with its envelope, give the normal form of the backup and the
   * secret.
   */
  lemma TwoSharesRecover(c: Suite, o: CreateOptions, backup: Backup, packageID: string, secret: Bytes, stream: Bytes,
                         now: int, i: nat, j: nat)
    requires Lawful(c) && ValidHex(packageID, 32) && |secret| == ACCOUNT_SECRET_SIZE
    requires Assembled(c, o, backup, packageID, secret, stream, now).Ok? && NormalizeBackup(c, backup).Ok?
    requires i < ShareTotal(o.recoveryMode) && j < ShareTotal(o.recoveryMode) && i != j
    ensures var shares := SplitSecret(c, secret, packageID, o.recoveryMode, stream);
            && shares.Ok?
            && RecoverAccount(c, Assembled(c, o, backup, packageID, secret, stream, now).value.value.envelope,
                              [shares.value.value[i], shares.value.value[j]])
               == Ok(Recovered(NormalizeBackup(c, backup).value, secret))
  {
    hide SplitSecret, Assembled, DecryptBackup, NormalizeBackup, CombineShares, ValidateEnvelope,
         Guardian.EncryptGuardianShare, ValidHex, ValidateGuardianPart;
    AssembledFaithful(c, o, backup, packageID, secret, stream, now);
    SplitFits(c, secret, packageID, o.recoveryMode, stream);
    AnyTwoShares(c, secret, packageID, o.recoveryMode, stream, i, j);
  }

  /** The draws behind a created package. */
  lemma CreatedFrom(c: Suite, o: CreateOptions, stream: Bytes, now: int)
    requires CreatePackage(c, o, stream, now).Ok?
    ensures |stream| >= 48
    ensures var packageID, secret, rest := HexOf(stream[..16]), stream[16..48], stream[48..];
            && NormalizeBackup(c, o.backup).Ok?
            && Assembled(c, o, NormalizeBackup(c, o.backup).value, packageID, secret, rest, now).Ok?
            && CreatePackage(c, o, stream, now).value ==
                 var p := Assembled(c, o, NormalizeBackup(c, o.backup).value, packageID, secret, rest, now);
                 Created(p.value.value, secret)
  {
    hide Assembled, ValidateRecoveryPackage, NormalizeBackup, HexOf;
    assert stream[16..][..32] == stream[16..48] && stream[16..][32..] == stream[48..];
  }

  /**
   * The law of the package: in 2-of-3 mode a created package validates, its guardian capsule opens
   * for the guardian, and the user's and the guardian's shares, in either order, recover the secret
   * and the normalised backup.
   */
  lemma CreateThenRecover(c: Suite, o: CreateOptions, stream: Bytes, now: int, privateKey: Bytes)
    requires Lawful(c) && |privateKey| == 32
    requires o.recoveryMode == MODE_2OF3 && o.guardianPublicKey == c.publicKey(privateKey)
    requires CreatePackage(c, o, stream, now).Ok?
    ensures var p := CreatePackage(c, o, stream, now).value.package;
            var expected :=
                  Ok(Recovered(NormalizeBackup(c, o.backup).value, CreatePackage(c, o, stream, now).value.secret));
            && NormalizeBackup(c, o.backup).Ok? && p.guardianCapsule.Some?
            && ValidateRecoveryPackage(c, p) == Ok(())
            && var g := Guardian.DecryptGuardianShare(c, p.guardianCapsule.value, privateKey);
               && g.Ok?
               && RecoverAccount(c, p.envelope, [p.userShare, g.value]) == expected
               && RecoverAccount(c, p.envelope, [g.value, p.userShare]) == expected
  {
    hide Assembled, CreatePackage, ValidateRecoveryPackage, NormalizeBackup, HexOf, SplitSecret, RecoverAccount,
         Guardian.EncryptGuardianShare, Guardian.DecryptGuardianShare, ValidHex, DecryptBackup,
         ValidateGuardianPart, ValidateEnvelope;
    CreatedFrom(c, o, stream, now);
    var packageID, secret, rest := HexOf(stream[..16]), stream[16..48], stream[48..];
    var backup := NormalizeBackup(c, o.backup).value;
    NormalizeBackupIdempotent(c, o.backup);
    AssembledFaithful(c, o, backup, packageID, secret, rest, now);
    AssembledValidates(c, o, backup, packageID, secret, rest, now);
    var shares := SplitSecret(c, secret, packageID, MODE_2OF3, rest).value.value;
    var s: Bytes :| Guardian.EncryptGuardianShare(c, shares[2], o.guardianPublicKey, s).Ok?
                    && CreatePackage(c, o, stream, now).value.package.guardianCapsule
                       == Some(Guardian.EncryptGuardianShare(c, shares[2], o.guardianPublicKey, s).value.value);
    Guardian.EncryptThenDecrypt(c, shares[2], privateKey, s);
    TwoSharesRecover(c, o, backup, packageID, secret, rest, now, 0, 2);
    TwoSharesRecover(c, o, backup, packageID, secret, rest, now, 2, 0);
  }

  // ---- What a created package says ----

  /** Everything a package without its guardian's part says, in terms of what creation was given. */
  ghost predicate Says(c: Suite, o: CreateOptions, packageID: string, secret: Bytes, shares: seq<RecoveryShare>,
                       stream: Bytes, now: int, p: RecoveryPackage)
  {
    && |shares| == ShareTotal(o.recoveryMode)
    && p.envelope.version == 1 && p.envelope.locator == Locator(1, o.accountID, packageID, o.recoveryMode)
    && p.manifest.version == 1 && p.manifest.locator == p.envelope.locator && p.manifest.createdAt == now
    && p.manifest.threshold == 2 && p.manifest.total == |shares|
    && p.manifest.envelopeHash == c.envelopeDigest(p.envelope)
    && p.userShare == shares[0]
    && exists used :: c.knowledge(packageID, shares[1], o.questions, stream) ==
                        Some((p.dkvsCapsule, p.knowledge, used))
  }

  lemma BaseSays(c: Suite, o: CreateOptions, backup: Backup, packageID: string, secret: Bytes,
                 shares: seq<RecoveryShare>, stream: Bytes, now: int)
    requires |shares| == ShareTotal(o.recoveryMode)
    requires BasePackage(c, o, backup, packageID, secret, shares, stream, now).Ok?
    ensures EncryptBackup(c, secret, LocatorFor(o, packageID), backup, stream).Ok?
    ensures var p := BasePackage(c, o, backup, packageID, secret, shares, stream, now).value.value;
            && Says(c, o, packageID, secret, shares,
                    EncryptBackup(c, secret, LocatorFor(o, packageID), backup, stream).value.rest, now, p)
            && p.manifest.guardian.None? && p.guardianCapsule.None?
  {
    hide EncryptBackup, ValidateEnvelope;
    var rest := EncryptBackup(c, secret, LocatorFor(o, packageID), backup, stream).value.rest;
    var k := c.knowledge(packageID, shares[1], o.questions, rest).value;
    assert c.knowledge(packageID, shares[1], o.questions, rest) == Some((k.0, k.1, k.2));
  }

  /** The reference to the guardian's capsule: the mailbox of the options, the sealed share, the capsule's digest. */
  ghost predicate Refers(c: Suite, o: CreateOptions, share: RecoveryShare, p: RecoveryPackage) {
    && p.guardianCapsule.Some? && p.manifest.guardian.Some?
    && p.manifest.guardian.value.mailboxID == o.guardianMailboxID
    && p.manifest.guardian.value.shareID == share.checksum == p.guardianCapsule.value.shareID
    && p.manifest.guardian.value.capsuleHash == c.capsuleDigest(p.guardianCapsule.value)
    && p.guardianCapsule.value.packageID == share.packageID
  }

  lemma GuardianSays(c: Suite, o: CreateOptions, base: RecoveryPackage, share: RecoveryShare, stream: Bytes)
    requires WithGuardian(c, o, base, share, stream).Ok?
    ensures var p := WithGuardian(c, o, base, share, stream).value.value;
            && Refers(c, o, share, p)
            && p == base.(guardianCapsule := p.guardianCapsule,
                          manifest := base.manifest.(guardian := p.manifest.guardian))
  {
    hide ValidateShare, SealBytes, ValidHex, Base64.RawUrlEncode, Guardian.SealShare;
  }

  lemma AssembledSays(c: Suite, o: CreateOptions, backup: Backup, packageID: string, secret: Bytes, stream: Bytes,
                      now: int)
    requires |secret| == ACCOUNT_SECRET_SIZE && Assembled(c, o, backup, packageID, secret, stream, now).Ok?
    ensures var shares := SplitSecret(c, secret, packageID, o.recoveryMode, stream);
            var p := Assembled(c, o, backup, packageID, secret, stream, now).value.value;
            && shares.Ok?
            && (exists rest :: Says(c, o, packageID, secret, shares.value.value, rest, now, p))
            && (if o.recoveryMode == MODE_2OF3 then Refers(c, o, shares.value.value[2], p)
                else p.manifest.guardian.None? && p.guardianCapsule.None?)
  {
    hide SplitSecret, BasePackage, WithGuardian, Refers, EncryptBackup;
    var shares := SplitSecret(c, secret, packageID, o.recoveryMode, stream).value;
    BaseSays(c, o, backup, packageID, secret, shares.value, shares.rest, now);
    var base := BasePackage(c, o, backup, packageID, secret, shares.value, shares.rest, now).value;
    var rest := EncryptBackup(c, secret, LocatorFor(o, packageID), backup, shares.rest).value.rest;
    if o.recoveryMode == MODE_2OF3 {
      GuardianSays(c, o, base.value, shares.value[2], base.rest);
    }
    assert Says(c, o, packageID, secret, shares.value, rest, now,
                Assembled(c, o, backup, packageID, secret, stream, now).value.value);
  }

  /**
   * What every created package says: the account, a package id and a secret from the random stream, the time, the
   * user's share, the questions' part made from the second share, and, in 2-of-3 mode only, where the guardian
   * finds the capsule of the third.
   */
  lemma CreatedSays(c: Suite, o: CreateOptions, stream: Bytes, now: int)
    requires Lawful(c) && CreatePackage(c, o, stream, now).Ok?
    ensures |stream| >= 80
    ensures var packageID, secret, rest := HexOf(stream[..16]), stream[16..48], stream[48..];
            var p := CreatePackage(c, o, stream, now).value.package;
            var shares := seq(ShareTotal(o.recoveryMode), i requires 0 <= i < 3 =>
                                ShareAt(c, o, packageID, secret, rest, i + 1));
            && CreatePackage(c, o, stream, now).value.secret == secret
            && (exists left :: Says(c, o, packageID, secret, shares, left, now, p))
            && (if o.recoveryMode == MODE_2OF3 then Refers(c, o, shares[2], p)
                else p.manifest.guardian.None? && p.guardianCapsule.None?)
  {
    hide Assembled, CreatePackage, HexOf, SplitSecret, Says, Refers, NormalizeBackup, MakeShare, Shamir.Share,
         ValidateShare;
    CreatedFrom(c, o, stream, now);
    var packageID, secret, rest := HexOf(stream[..16]), stream[16..48], stream[48..];
    var backup := NormalizeBackup(c, o.backup).value;
    AssembledSays(c, o, backup, packageID, secret, rest, now);
    SplitFits(c, secret, packageID, o.recoveryMode, rest);
    SplitSucceeds(c, secret, packageID, o.recoveryMode, rest);
    var shares := SplitSecret(c, secret, packageID, o.recoveryMode, rest).value.value;
    assert shares == seq(ShareTotal(o.recoveryMode), i requires 0 <= i < 3 =>
                           ShareAt(c, o, packageID, secret, rest, i + 1));
  }

  // ---- Exactly when creation succeeds ----

  /** The knowledge step accepts the second share with what is left of the stream. */
  predicate KnowledgeWorks(c: Suite, o: CreateOptions, packageID: string, secret: Bytes, stream: Bytes)
    requires |stream| >= ACCOUNT_SECRET_SIZE + NONCE_SIZE && |secret| == ACCOUNT_SECRET_SIZE
  {
    var rest := stream[ACCOUNT_SECRET_SIZE + NONCE_SIZE..];
    c.knowledge(packageID, ShareAt(c, o, packageID, secret, stream, 2), o.questions, rest).Some?
  }

  /** The i-th share that splitting with this stream gives. */
  function ShareAt(c: Suite, o: CreateOptions, packageID: string, secret: Bytes, stream: Bytes, i: nat): RecoveryShare
    requires |stream| >= |secret| == ACCOUNT_SECRET_SIZE && 1 <= i < 256
  {
    MakeShare(c, packageID, ShareTotal(o.recoveryMode), i, Shamir.Share(secret, 1, stream, i))
  }

  /** What the knowledge step leaves of the stream. */
  function AfterKnowledge(c: Suite, o: CreateOptions, packageID: string, secret: Bytes, stream: Bytes): Bytes
    requires |stream| >= ACCOUNT_SECRET_SIZE + NONCE_SIZE && |secret| == ACCOUNT_SECRET_SIZE
    requires KnowledgeWorks(c, o, packageID, secret, stream)
  {
    var rest := stream[ACCOUNT_SECRET_SIZE + NONCE_SIZE..];
    Rest(rest, c.knowledge(packageID, ShareAt(c, o, packageID, secret, stream, 2), o.questions, rest).value.2)
  }

  /** The stream can serve the guardian's capsule, and the guardian's key exchanges with the ephemeral one. */
  predicate GuardianServed(c: Suite, o: CreateOptions, stream: Bytes) {
    && |stream| >= Guardian.KEY_SIZE + NONCE_SIZE
    && c.exchange(stream[..Guardian.KEY_SIZE], o.guardianPublicKey).Some?
  }

  lemma BaseSucceeds(c: Suite, o: CreateOptions, backup: Backup, packageID: string, secret: Bytes,
                     shares: seq<RecoveryShare>, stream: Bytes, now: int)
    requires Lawful(c) && ValidHex(o.accountID, 64) && ValidHex(packageID, 32)
    requires o.recoveryMode in {MODE_2OF2, MODE_2OF3} && |shares| == ShareTotal(o.recoveryMode)
    ensures var r := BasePackage(c, o, backup, packageID, secret, shares, stream, now);
            && (r.Ok? <==>
                  |stream| >= NONCE_SIZE && c.knowledge(packageID, shares[1], o.questions, stream[NONCE_SIZE..]).Some?)
            && (r.Ok? ==>
                  var rest := stream[NONCE_SIZE..];
                  r.value.rest == Rest(rest, c.knowledge(packageID, shares[1], o.questions, rest).value.2))
  {
    hide DecryptBackup, ValidHex, DeriveBackupKey, Base64.RawUrlEncode, LocatorAad;
    var locator := LocatorFor(o, packageID);
    Sealing.EncryptSucceeds(c, secret, locator, backup, stream);
    if |stream| >= NONCE_SIZE {
      Sealing.EncryptThenDecrypt(c, secret, locator, backup, stream);
    }
  }

  lemma AssembledSucceeds(c: Suite, o: CreateOptions, backup: Backup, packageID: string, secret: Bytes, stream: Bytes,
                          now: int)
    requires Lawful(c) && ValidHex(o.accountID, 64) && ValidHex(packageID, 32) && |secret| == ACCOUNT_SECRET_SIZE
    requires o.recoveryMode in {MODE_2OF2, MODE_2OF3}
    requires o.recoveryMode == MODE_2OF3 ==> |o.guardianPublicKey| == Guardian.KEY_SIZE
    ensures Assembled(c, o, backup, packageID, secret, stream, now).Ok? <==>
              && |stream| >= ACCOUNT_SECRET_SIZE + NONCE_SIZE
              && KnowledgeWorks(c, o, packageID, secret, stream)
              && (o.recoveryMode == MODE_2OF3 ==>
                    GuardianServed(c, o, AfterKnowledge(c, o, packageID, secret, stream)))
  {
    hide SplitSecret, BasePackage, MakeShare, ValidHex, Guardian.EncryptGuardianShare, Shamir.Share, ValidateShare;
    var split := SplitSecret(c, secret, packageID, o.recoveryMode, stream);
    if split.Ok? {
      SplitFits(c, secret, packageID, o.recoveryMode, stream);
    }
    if |stream| >= ACCOUNT_SECRET_SIZE {
      SplitSucceeds(c, secret, packageID, o.recoveryMode, stream);
      var shares, rest := split.value.value, split.value.rest;
      BaseSucceeds(c, o, backup, packageID, secret, shares, rest, now);
      assert shares[1] == ShareAt(c, o, packageID, secret, stream, 2);
      assert |rest| >= NONCE_SIZE ==> rest[NONCE_SIZE..] == stream[ACCOUNT_SECRET_SIZE + NONCE_SIZE..];
      var base := BasePackage(c, o, backup, packageID, secret, shares, rest, now);
      if o.recoveryMode == MODE_2OF3 && base.Ok? {
        GuardianPartSucceeds(c, o, base.value.value, shares[2], packageID, base.value.rest);
      }
    }
  }

  lemma GuardianPartSucceeds(c: Suite, o: CreateOptions, base: RecoveryPackage, share: RecoveryShare,
                             packageID: string, stream: Bytes)
    requires Lawful(c) && ValidateShare(c, share).Ok? && |o.guardianPublicKey| == Guardian.KEY_SIZE
    requires exists raw :: share == MakeShare(c, packageID, 3, 3, raw)
    ensures WithGuardian(c, o, base, share, stream).Ok? <==> GuardianServed(c, o, stream)
  {
    hide ValidateShare, ValidHex, Base64.RawUrlEncode, Guardian.GuardianKey, Guardian.GuardianAad;
    Guardian.EncryptSucceeds(c, share, o.guardianPublicKey, stream);
  }

  /**
   * Creation succeeds exactly with acceptable options, entropy for the id, the secret, the split and the
   * nonce, a knowledge step that works, and, in 2-of-3 mode, what the guardian's capsule needs.
   */
  lemma CreateSucceeds(c: Suite, o: CreateOptions, stream: Bytes, now: int)
    requires Lawful(c)
    ensures CreatePackage(c, o, stream, now).Ok? <==>
              && GoodOptions(c, o)
              && |stream| >= PACKAGE_ID_SIZE + 2 * ACCOUNT_SECRET_SIZE + NONCE_SIZE
              && var packageID, secret, rest := HexOf(stream[..16]), stream[16..48], stream[48..];
                 && KnowledgeWorks(c, o, packageID, secret, rest)
                 && (o.recoveryMode == MODE_2OF3 ==>
                       GuardianServed(c, o, AfterKnowledge(c, o, packageID, secret, rest)))
  {
    hide Assembled, ValidateRecoveryPackage, NormalizeBackup, HexOf, KnowledgeWorks, AfterKnowledge, GuardianServed,
         ValidHex, GoodOptions;
    OptionsExactly(c, o);
    if CheckOptions(c, o).Ok? && |stream| >= 48 {
      assert stream[16..][..32] == stream[16..48] && stream[16..][32..] == stream[48..];
      var backup, packageID, secret, rest :=
            CheckOptions(c, o).value, HexOf(stream[..16]), stream[16..48], stream[48..];
      AssembledSucceeds(c, o, backup, packageID, secret, rest, now);
      if Assembled(c, o, backup, packageID, secret, rest, now).Ok? {
        AssembledValidates(c, o, backup, packageID, secret, rest, now);
      }
    }
  }
}
