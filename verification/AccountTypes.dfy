// Data types of sdk/account/types.go and the primitives the package calls:
// HMAC-SHA-256, AES-256-GCM, X25519, SHA-256 digests and JSON.

module AccountTypes {
  import opened Basics
  import opened Text

  const VERSION := 1
  const ACCOUNT_SECRET_SIZE := 32
  const NONCE_SIZE := 12
  const MODE_2OF2 := "2of2"
  const MODE_2OF3 := "2of3"
  const ROLE_USER := "user"
  const ROLE_DKVS := "dkvs"
  const ROLE_GUARDIAN := "guardian"

  datatype Error =
    | InvalidAccountID | InvalidPackageID | InvalidBackup | InvalidRecoveryPackage
    | InvalidShare | InsufficientShares | RecoveryFailed
    | QuestionsRequired | GuardianRequired | InvalidGuardianKey | ExchangeFailed | KnowledgeFailed
    | EntropyExhausted | CallbacksRequired | CallbackFailed | NotConfirmed

  type Outcome<T> = Result<T, Error>

  datatype SubAccount = SubAccount(index: nat, name: string, did: string)
  datatype WalletBackup = WalletBackup(name: string, mnemonic: string, accountCount: nat, subAccounts: seq<SubAccount>)
  datatype Backup = Backup(version: nat, wallets: seq<WalletBackup>)
  datatype Locator = Locator(version: nat, accountID: string, packageID: string, recoveryMode: string)
  datatype EncryptedBlob = EncryptedBlob(algorithm: string, nonce: string, ciphertext: string)
  datatype Envelope = Envelope(version: nat, locator: Locator, encryptedBackup: EncryptedBlob)
  datatype RecoveryShare = RecoveryShare(version: nat, packageID: string, threshold: nat, total: nat,
                                         index: nat, role: string, data: string, checksum: string)
  datatype Question = Question(id: string, prompt: string, answer: string, confirmation: string)
  datatype KnowledgeBundle = KnowledgeBundle(version: nat, packageID: string, payload: Bytes)
  datatype DkvsCapsule = DkvsCapsule(version: nat, packageID: string, algorithm: string, nonce: string,
                                     ciphertext: string)
  datatype GuardianCapsule = GuardianCapsule(version: nat, packageID: string, shareID: string, algorithm: string,
                                             ephemeralPublicKey: string, nonce: string, ciphertext: string)
  datatype GuardianReference = GuardianReference(mailboxID: string, shareID: string, capsuleHash: string)
  datatype Manifest = Manifest(version: nat, locator: Locator, threshold: nat, total: nat, envelopeHash: string,
                               createdAt: int, guardian: Option<GuardianReference>)
  datatype RecoveryPackage = RecoveryPackage(envelope: Envelope, manifest: Manifest, userShare: RecoveryShare,
                                             dkvsCapsule: DkvsCapsule, knowledge: KnowledgeBundle,
                                             guardianCapsule: Option<GuardianCapsule>)
  datatype CreateOptions = CreateOptions(accountID: string, backup: Backup, recoveryMode: string,
                                         questions: seq<Question>, guardianMailboxID: string, guardianPublicKey: Bytes)

  /** What the package computes with but does not define. */
  datatype Suite = Suite(
    hmac: (Bytes, Bytes) -> Bytes,
    seal: (Bytes, Bytes, Bytes, Bytes) -> Bytes,
    open: (Bytes, Bytes, Bytes, Bytes) -> Option<Bytes>,
    publicKey: Bytes -> Bytes,
    exchange: (Bytes, Bytes) -> Option<Bytes>,
    utf8: string -> Bytes,
    backupJson: Backup -> Bytes,
    parseBackup: Bytes -> Option<Backup>,
    shareJson: RecoveryShare -> Bytes,
    parseShare: Bytes -> Option<RecoveryShare>,
    locatorJson: Locator -> Bytes,
    parseLocator: Bytes -> Option<Locator>,
    shareDigest: RecoveryShare -> string,
    envelopeDigest: Envelope -> string,
    capsuleDigest: GuardianCapsule -> string,
    mnemonicValid: string -> bool,
    knowledge: (string, RecoveryShare, seq<Question>, Bytes) -> Option<(DkvsCapsule, KnowledgeBundle, nat)>)

  /** Authenticated encryption (section 2 of RFC 5116): opening inverts sealing, and only sealed text opens. */
  ghost predicate AeadLaws(c: Suite) {
    && (forall k, n, p, a :: c.open(k, n, c.seal(k, n, p, a), a) == Some(p))
    && (forall k, n, x, a :: c.open(k, n, x, a).Some? ==> x == c.seal(k, n, c.open(k, n, x, a).value, a))
    && (forall k, n, p, a :: c.seal(k, n, p, a) != [])
  }

  /** Key agreement (section 6.1 of RFC 7748): both sides compute one shared secret. */
  ghost predicate ExchangeLaws(c: Suite) {
    && (forall d :: |c.publicKey(d)| == 32)
    && (forall d, e :: c.exchange(d, c.publicKey(e)) == c.exchange(e, c.publicKey(d)))
  }

  ghost predicate TextLaws(c: Suite) {
    && (forall s, t :: c.utf8(s) == c.utf8(t) ==> s == t)
    && (forall b :: c.parseBackup(c.backupJson(b)) == Some(b))
    && (forall s :: c.parseShare(c.shareJson(s)) == Some(s))
    && (forall l :: c.parseLocator(c.locatorJson(l)) == Some(l))
  }

  ghost predicate DigestLaws(c: Suite) {
    && (forall k, m :: |c.hmac(k, m)| == 32)
    && (forall s :: ValidHex(c.shareDigest(s), 16))
    && (forall e :: ValidHex(c.envelopeDigest(e), 64))
    && (forall g :: ValidHex(c.capsuleDigest(g), 64))
  }

  /** The question-based capsule and bundle carry the package's version and id. */
  ghost predicate KnowledgeLaws(c: Suite) {
    forall id, share, questions, stream :: c.knowledge(id, share, questions, stream).Some? ==>
      var k := c.knowledge(id, share, questions, stream).value;
      k.0.version == VERSION && k.0.packageID == id && k.1.packageID == id && k.2 <= |stream|
  }

  ghost predicate Lawful(c: Suite) {
    AeadLaws(c) && ExchangeLaws(c) && TextLaws(c) && DigestLaws(c) && KnowledgeLaws(c)
  }

  /** Two different associated-data strings under which one nonce seals to the same text. */
  ghost predicate Forgery(c: Suite, k: Bytes, p: Bytes, a: Bytes, k': Bytes, p': Bytes, a': Bytes, n: Bytes) {
    a != a' && c.seal(k, n, p, a) == c.seal(k', n, p', a')
  }

  /** A cipher against which no such forgery exists. */
  ghost predicate Unforgeable(c: Suite) {
    forall k, p, a, k', p', a', n :: !Forgery(c, k, p, a, k', p', a', n)
  }
}
