# Verification of the wallet's recovery, storage and request protocols

A Dafny model of the parts of the wallet where a wrong step loses money or state, with proofs about every input, every
run and every interleaving. `dafny verify dfyconfig.toml` checks all of it.

What is modelled, from the bottom up:

- **Account recovery package** (`sdk/account`). Secret sharing over GF(2^8) down to the bit loops, the HKDF loop over byte
  buffers, sealing with '|'-joined associated data, the guardian's X25519 capsule, package assembly, recovery, and the
  new-device restore with its wiped buffers. HMAC-SHA-256, AES-256-GCM, X25519, JSON, UTF-8 and the knowledge-question step
  are functions in a `Suite` record with stated laws (`AccountTypes`); `SampleSuite` exhibits a suite that meets them all.
  A sealed backup or capsule opens under another locator or other ids exactly when that one ciphertext is a forgery of
  the cipher, under the two derived keys and the drawn nonce; no theorem assumes a cipher without forgeries.
- **Snapshot store** (`pwa/lib/walletStorage.ts` over `pwa/lib/storage-adapter.ts`). `SnapshotSpec` says what each
  operation writes, one durable write at a time; `SnapshotStore` is the class; `SnapshotTheorems` are the crash and
  agreement results for serial runs; `SnapshotOverlap` is the step model of overlapping calls.
- **Deep-link bridge**, **background worker** and **DApp bridge**. Each synchronous stretch between awaits is one step; the
  invariants hold over all interleavings, and a class makes the very same steps imperatively.
- **Agent gate**: which agent operations reach the wallet core, and with which arguments.
- **Biometric credential**: base64url without padding, and the PRF-wrapped password across verifications, mode changes,
  failing saves and reloads.
- **Wallet catalogue** and **referrer cache**, the latter with overlapping calls in `ReferrersOverlap`.

Faults, clocks, random bytes, replies of the core and of the platform are parameters; every theorem is for all of them.

## What turned out not to hold

Each of these has a lemma with the failing case and one with the exact condition:

- The per-key mirrors equal the snapshot only until a clear empties the database and then throws while it removes
  localStorage keys. After the next update they differ from the snapshot exactly when memory held a non-default value under a key
  that update does not write (`SnapshotTheorems.HalfClearThenUpdate`).
- Overlapping updates: a call puts every key it does not write back to the value it had when the call was made, so an
  update that finished in between is lost although both calls succeed and the revision does not show it
  (`SnapshotOverlap.FinishReverts`, `SnapshotOverlap.LostUpdate`). Over a run the last update of a key is in memory exactly
  when the chain of states the calls had seen leads back to its value (`SnapshotOverlap.NoLossExactly`,
  `SnapshotOverlap.UpdateSurvivesExactly`).
- The deep-link cleanup is meant for expired requests but never looks at their age: every 30 seconds it rejects whatever is
  registered, although the default timeout is 60. A wait ends before its deadline as expired exactly when a cleanup came before
  it and found the wait registered (`DeepLink.ExpiredEarly`, `DeepLink.ExpiresAtOnce`).
- A deep-link `error` callback whose `error` value has its own `toString` property clears the wait's timer and then throws while
  it builds the reason. An unsettled wait is without a timer exactly when such a callback hit it
  (`DeepLink.SettledAtMostOnce`), and can never settle any more exactly when it has lost its registration as well
  (`DeepLink.StrandedExactly`, `DeepLink.ThrowingCallbackStrands`).
- A callback for a session that still waits can go astray: it settles the wait exactly when the wait is still registered and
  the callback does not throw (`DeepLink.CallbackSettles`), and registration is lost exactly to a later wait or another wait's
  timer under the same session id (`DeepLink.RegisteredExactly`, `DeepLink.OlderTimerDropsNewer`).
- Background messages are not handled in arrival order: one that arrives at a ready core with a backlog is handed over before
  it, and nothing else breaks the order (`Background.RunInLine`, `Background.HandedInArrivalOrder`,
  `Background.NewcomerOvertakes`).
- A background drain keeps handing messages to a core that an environment change has just taken down
  (`Background.HandedWhileNotReady`, exactly; `Background.DrainOutlivesChange`).
- The background core is declared ready while a reload is still under way exactly when the first load ends during a reload, one of
  several reloads ends, well or badly, or a handler fails in a reload's drain during the next reload
  (`Background.ReadyTooSoon`, `Background.PrematureExactly`, `Background.PrematureRuns`). A backlog is left with
  nobody working on it exactly by a reload that fails while no drain works, or by a handler that fails in the last drain and
  leaves the core ready (`Background.BacklogStranded`, and over runs `Background.StrandedExactly`).
- One (origin, requestId, nonce) can execute twice: exactly when a handler is authorised whose key has been recorded since its
  own duplicate test (`DappBridge.ExecutedTwiceExactly`, `DappBridge.OverlappingDuplicates`).
- The DApp request key does not name the request: within one origin ids and nonces with colons share keys, and two origins
  share keys when one extends the other by a colon, as an origin with a port does. An unseen request is then turned away as a
  duplicate (`DappBridge.AcceptableKeyInjective`, `DappBridge.OriginsCollide`, `DappBridge.DuplicateExactly`,
  `DappBridge.KeyCollision`).
- A DApp handler without a frame, or whose posts are all refused, gives no response at all (`DappBridge.StepResponds`,
  and over runs `DappBridge.AnsweredExactly`).
- A credential creation that reaches its save and fails there has replaced the credential in memory: exactly when is
  `Credentials.CreateExactly`, what follows is `Credentials.FailedSaveReplacesMemory`.
- A password that starts with a byte order mark comes back without it (`Credentials.VerifyReturns`).
- `createWallet` whose address lookup fails leaves `hasWallet` set with the wallet missing; `Catalogue.StepExactly` gives the
  exact guard of every catalogue operation.
- Package creation does not wipe the secret buffer when the very read that fills it comes up short, which is exactly when the
  options are acceptable and the source runs dry after 16 and before 48 bytes (`Manager.CreateRecoveryPackageWithSecret`).
- Referrer names: a name whose addition finishes while the transaction ids are being collected is lost exactly when the list
  is rewritten at the end (`ReferrersOverlap.NewNameLost`, `ReferrersOverlap.AddLostInRewrite`); two overlapping additions or
  removals lose names the same way (`ReferrersOverlap.AddLoses`, `ReferrersOverlap.RemoveLoses`).

Two remarks on limits the callers keep: `locatorAAD` would be ambiguous for ids with bars, but only validated locators reach it
(`Sealing.AadTextAmbiguous`), and the HKDF counter would reach zero past 255 blocks, but every caller asks for one block (`Hkdf.CounterWraps`).

## Model

| member | source | states |
|---|---|---|
| `Gf256.Mult` | sdk/account/internal/shamir/shamir.go:81-88 | The shift-and-mask loop computes the field product, for every pair of bytes. |
| `Gf256.Comm` | sdk/account/internal/shamir/shamir.go:81-88 | The product commutes. |
| `Gf256.Assoc` | sdk/account/internal/shamir/shamir.go:81-88 | The product associates. |
| `Gf256.Distrib` | sdk/account/internal/shamir/shamir.go:81-89 | The product distributes over the field sum. |
| `Gf256.Units` | sdk/account/internal/shamir/shamir.go:81-88 | One and zero act as unit and annihilator. |
| `Gf256.InverseIsPow` | sdk/account/internal/shamir/shamir.go:67-79 | The addition chain of squarings and products is exactly the 254th power. |
| `Gf256.FermatLittle` | sdk/account/internal/shamir/shamir.go:67-79 | Every byte is its own 256th power, so the chain is an inverse. |
| `Gf256.InverseLaw` | sdk/account/internal/shamir/shamir.go:67-79 | A non-zero byte times its chain inverse is one. |
| `Gf256.DivLaw` | sdk/account/internal/shamir/shamir.go:58-65 | Dividing undoes multiplying by a non-zero byte. |
| `Gf256.NoZeroDivisors` | sdk/account/internal/shamir/shamir.go:81-88 | A product is zero only when a factor is. |
| `Polynomial.Evaluate` | sdk/account/internal/shamir/shamir.go:32-41 | The loop from the top coefficient evaluates the polynomial, with its shortcut at zero. |
| `Polynomial.Interpolate` | sdk/account/internal/shamir/shamir.go:43-56 | The double loop computes the Lagrange sum at any point. |
| `Polynomial.Lagrange` | sdk/account/internal/shamir/shamir.go:43-56 | Interpolating enough values of a polynomial at distinct points gives the polynomial back, at every point. |
| `Polynomial.InterpAt` | sdk/account/internal/shamir/shamir.go:43-56 | The interpolation passes through every given point. |
| `Polynomial.ManyRoots` | sdk/account/internal/shamir/shamir.go:43-56 | A polynomial with as many distinct roots as coefficients is zero, which makes interpolation unique. |
| `Polynomial.Unique` | sdk/account/internal/shamir/shamir.go:43-56 | Two polynomials agreeing on as many distinct points as they have coefficients are the same. |
| `Shamir.Split` | sdk/account/internal/shamir/shamir.go:91-116 | Splitting succeeds exactly for legal parts and thresholds and enough entropy; the shares are the values of one random polynomial per secret byte, read in order. |
| `Shamir.ReadAbscissas` | sdk/account/internal/shamir/shamir.go:118-139 | Reading the trailing bytes of the parts succeeds exactly when there are two or more parts of one length with distinct non-zero ones. |
| `Shamir.Combine` | sdk/account/internal/shamir/shamir.go:118-153 | Combining succeeds exactly on combinable parts and interpolates each byte at zero. |
| `Shamir.SplitThenCombine` | sdk/account/internal/shamir/shamir.go:91-153 | Any choice of at least threshold distinct shares, in any order, gives back the secret. |
| `Shamir.TooFewSharesSayNothing` | sdk/account/internal/shamir/shamir.go:17-30 | One share short of the threshold, every guess of a secret byte is explained by exactly one polynomial. |
| `Shamir.AnyFewerSayNothing` | sdk/account/internal/shamir/shamir.go:17-30 | However many shares are missing, every guess of a secret byte fits them. |
| `AccountShares.SplitSecretWithReader` | sdk/account/share.go:65-84 | The loop over raw shares wraps each with its role and checksum, in order, drawing exactly the entropy the split needs. |
| `AccountShares.NewShareValid` | sdk/account/share.go:45-63 | A freshly wrapped share passes validation and yields its raw bytes. |
| `AccountShares.ShareValidExactly` | sdk/account/share.go:53-63 | Exactly which shares are valid, field by field, and the bytes they stand for. |
| `AccountShares.ChangedShare` | sdk/account/share.go:35-63 | A changed share that is still valid under its checksum is a collision of the digest. |
| `AccountShares.CombineSharesInOrder` | sdk/account/share.go:86-115 | Validation, package and total checks share by share, then combination, with the first error met. |
| `AccountShares.CombinesExactly` | sdk/account/share.go:86-115 | Combination succeeds exactly for two or more valid shares of one package and size with different indexes; the first two decide the secret. |
| `AccountShares.AnyTwoShares` | sdk/account/share.go:65-115 | Any two different shares of a split secret combine to it, in both modes. |
| `AccountShares.PairCombines` | sdk/account/share.go:86-115 | The same for shares known only to come from a split of that secret. |
| `AccountBackup.NormalizeBackupIdempotent` | sdk/account/validation.go:38-85 | A normalised backup normalises to itself. |
| `AccountBackup.BackupNormalized` | sdk/account/validation.go:38-85 | A backup is accepted exactly when it has wallets, each is acceptable and their normal names differ; the result is their normal forms in order. |
| `AccountBackup.WalletNormalized` | sdk/account/validation.go:43-83 | Exactly which wallets are acceptable, and every field of the normal form, generated account names included. |
| `AccountBackup.NoneMissing` | sdk/account/validation.go:77-81 | As many different indexes as the count, all below it, leave none out: the closing loop never refuses. |
| `AccountBackup.LocatorValidExactly` | sdk/account/validation.go:21-32 | Exactly which locators are valid. |
| `Text.NormalizeSpaceIdempotent` | sdk/account/validation.go:34-36 | Collapsing white space twice is collapsing it once. |
| `Text.NormalizeGapped` | sdk/account/validation.go:34-36 | Whatever white space surrounds and separates the words, normalising gives the words with one blank between each two. |
| `Text.NormalizedShape` | sdk/account/validation.go:34-36 | The result has no white space at its ends and only single blanks inside. |
| `Text.DecimalInjective` | sdk/account/crypto.go:40-42 | Different numbers print differently. |
| `Text.DecimalReads` | sdk/account/crypto.go:40-42 | Printing a number gives the decimal notation that reads as it, without leading zeros. |
| `Text.HexReads` | sdk/account/manager.go:68-71 | Hex text has two digits a byte, high digit first, and reads as the bytes. |
| `Text.TrimSurrounded` | sdk/account/codec.go:22-39 | Trimming takes off exactly the surrounding white space of a text with solid ends. |
| `Hkdf.HkdfSha256` | sdk/account/crypto.go:21-38 | The output is that of sections 2.2 and 2.3 of RFC 5869 with the byte counter as the code has it; both working buffers end as zeros and the returned bytes are untouched. |
| `Hkdf.Expand` | sdk/account/crypto.go:26-36 | The loop appends the expansion blocks one after the other. |
| `Hkdf.DerivedBlock` | sdk/account/crypto.go:21-38 | Each block of the output is the HMAC of the block before it, the info and the block number, keyed by the HMAC of the secret under the salt (section 2.3 of RFC 5869). |
| `Hkdf.KeysApart` | sdk/account/crypto.go:21-38 | Two 32-byte keys agree exactly when secret, salt and info do, or one of the two named HMACs collides. |
| `Hkdf.CounterExact` | sdk/account/crypto.go:27-33 | Up to 255 blocks the byte counter is the block number. |
| `Hkdf.CounterWraps` | sdk/account/crypto.go:27-33 | Beyond that it reaches zero. |
| `Hkdf.Zero` | sdk/account/crypto.go:15-19 | The loop zeroes the whole buffer. |
| `Sealing.SealWithReader` | sdk/account/crypto.go:48-69 | Sealing draws one nonce and is the sealing function of it, with its errors. |
| `Sealing.SealThenOpen` | sdk/account/crypto.go:48-93 | Opening what was sealed under the same key and associated data gives the text back. |
| `Sealing.SealsExactly` | sdk/account/crypto.go:48-69 | Exactly when sealing succeeds, and that its two texts spell the drawn nonce and the sealed bytes. |
| `Sealing.OpensExactly` | sdk/account/crypto.go:71-93 | Exactly when opening gives a text. |
| `Sealing.OpenedElsewhere` | sdk/account/crypto.go:48-93 | Under other associated data, and any key the cipher takes, a sealed text opens to a given text exactly when that text is a forgery of its ciphertext under the two keys and the drawn nonce. |
| `Sealing.AadTextInjective` | sdk/account/crypto.go:40-42 | The joined associated data determines the locator when its ids are hex. |
| `Sealing.AadTextAmbiguous` | sdk/account/crypto.go:40-42 | Without that, two different locators share it. |
| `Sealing.EncryptBackupWithReader` | sdk/account/crypto.go:95-108 | Encryption reads one nonce from the source; the buffers of key and plaintext end as zeros. |
| `Sealing.EncryptedSays` | sdk/account/crypto.go:40-108 | An encrypted backup is its JSON sealed under the key derived with package id as salt and account id in the info, and under the bar-joined domain, version, account, package and mode. |
| `Sealing.BackupKeysApart` | sdk/account/crypto.go:44-46 | Another secret, package or account has another key, unless one of the two named HMACs collides. |
| `Sealing.EncryptThenDecrypt` | sdk/account/crypto.go:95-126 | Decrypting an encrypted backup gives its normal form. |
| `Sealing.EncryptSucceeds` | sdk/account/crypto.go:95-108 | Encryption fails only for want of nonce bytes. |
| `Sealing.OtherLocatorRefused` | sdk/account/crypto.go:95-126 | Decrypting under any other hex locator, with any secret, succeeds exactly when this ciphertext is forged, under the two derived keys and the drawn nonce, by a text that reads as a backup. |
| `Sealing.OtherLocatorFails` | sdk/account/crypto.go:95-126 | It fails unless this one ciphertext is forged under those keys and that nonce. |
| `Guardian.EncryptWithReader` | sdk/account/guardian.go:36-73 | The capsule is made from the ephemeral key and the nonce in the order they are drawn, with the code's errors. |
| `Guardian.CapsuleSays` | sdk/account/guardian.go:23-73 | Only a valid guardian share is wrapped; the capsule names package and share, carries the public half of the drawn key, and holds the share sealed under the agreed key, the drawn nonce and both ids. |
| `Guardian.OpenedShare` | sdk/account/guardian.go:75-112 | Whatever a capsule yields is a valid guardian share with the capsule's package and share id. |
| `Guardian.EncryptThenDecrypt` | sdk/account/guardian.go:36-112 | The matching private key opens a capsule to the very share; both sides derive one key by the X25519 exchange (section 6.1 of RFC 7748). |
| `Guardian.EncryptSucceeds` | sdk/account/guardian.go:36-73 | For a valid guardian share, encryption succeeds exactly with a 32-byte key, enough entropy and an exchange that is not degenerate. |
| `Guardian.AadInjective` | sdk/account/guardian.go:23-25 | The joined associated data determines package and share id. |
| `Guardian.ChangedIdsForge` | sdk/account/guardian.go:75-112 | A capsule with a changed package or share id yields a share, to any private key, exactly when it is well formed, the exchange works, and its ciphertext is forged, under the derived keys and the drawn nonce, by a text that reads as an acceptable share. |
| `Guardian.ChangedIdsRefused` | sdk/account/guardian.go:75-112 | It yields no share unless this one ciphertext is forged under the derived keys and the drawn nonce. |
| `Manager.CreateRecoveryPackageWithSecret` | sdk/account/manager.go:46-118 | Creation draws id, secret, shares, nonces and keys in order; result and secret are those of the pure assembly, which `Manager.CreatedSays` describes; on every error after the secret was drawn its buffer is zero, and after a short read of the secret it holds exactly what was read. |
| `Manager.CreatedSays` | sdk/account/manager.go:46-118 | What every created package says: account, mode, drawn package id and secret, creation time, threshold, digest, the user's share, the questions' part made from the second share, and in 2-of-3 mode only the guardian's mailbox with the share id and digest of the capsule. |
| `Manager.OptionsExactly` | sdk/account/manager.go:49-67 | Exactly which options are acceptable, and what is complained about first. |
| `Manager.ValidatesExactly` | sdk/account/manager.go:120-147 | Exactly which packages validate, field by field. |
| `Manager.ReplacedEnvelope` | sdk/account/manager.go:120-147 | A validated package whose envelope is replaced validates only if the envelope digests collide. |
| `Manager.ReplacedCapsule` | sdk/account/manager.go:120-147 | The same of the guardian's capsule. |
| `Manager.CreateSucceeds` | sdk/account/manager.go:46-118 | Creation succeeds exactly with options that are acceptable field by field, enough entropy, a knowledge step that works, and, in 2-of-3 mode, what the guardian's capsule needs. |
| `Manager.RecoverWithBuffer` | sdk/account/manager.go:169-183 | The secret's buffer is handed out on success and zeroed when the backup does not decrypt. |
| `Manager.RecoversExactly` | sdk/account/manager.go:169-183 | Recovery succeeds exactly for a valid envelope, two or more valid shares of one package with different indexes, and a backup that decrypts under the secret of the first two. |
| `Manager.AssembledValidates` | sdk/account/manager.go:46-147 | Whatever assembly produces passes package validation. |
| `Manager.TwoSharesRecover` | sdk/account/manager.go:169-183 | Any two different shares recover the secret and the normalised backup from the envelope. |
| `Manager.CreateThenRecover` | sdk/account/manager.go:46-183 | In 2-of-3 mode a created package validates, the guardian opens its share, and user and guardian share recover secret and normalised backup in either order. |
| `NewDevice.RestoreOnNewDevice` | sdk/account/manager.go:169-220 | Result with its error, callbacks called in order with the recovered values only as far as the earlier ones allow, and every buffer that held the secret ends as zeros, the one of a failed decryption included. |
| `NewDevice.SummaryShows` | sdk/account/validation.go:162-172 | The summary shows the package and, wallet by wallet, name, account count and every DID. |
| `NewDevice.CallsInOrder` | sdk/account/manager.go:193-219 | The user is asked once, about the recovered backup; persisting comes second, only after a yes, with the recovered secret and backup. |
| `NewDevice.FailsWith` | sdk/account/manager.go:193-219 | Which error a restore reports, in the order of the checks. |
| `LocatorCodec.EncodeThenDecode` | sdk/account/codec.go:11-39 | Encoding succeeds exactly on valid locators and decoding gives them back, surrounding blanks included. |
| `LocatorCodec.EncodingsDiffer` | sdk/account/codec.go:11-39 | Two locators never share an encoding. |
| `LocatorCodec.EncodedSays` | sdk/account/codec.go:9-39 | The text is the prefix followed by the locator's JSON, and nothing decodes without it. |
| `LocatorCodec.DecodedIsValid` | sdk/account/codec.go:22-39 | Whatever decodes is a valid locator. |
| `Base64.RawUrlRoundTrip` | sdk/account/codec.go:11-39 | Unpadded URL-safe base64 (section 5 of RFC 4648) decodes to the bytes encoded. |
| `Base64.LettersInOrder` | sdk/account/codec.go:11-39 | The alphabets of sections 4 and 5 of RFC 4648, letter by letter. |
| `Base64.GroupSpells` | sdk/account/codec.go:11-39 | Four letters spell in base 64 the number that three bytes spell in base 256. |
| `Base64.TailSpells` | sdk/account/codec.go:11-39 | A last group of one or two bytes spells itself with zero bits after it. |
| `Base64Url.ToBase64Url` | pwa/utils/biometricCredentials.ts:103-113 | The byte loop with its alphabet swaps and stripped padding is unpadded URL-safe base64. |
| `Base64Url.FromBase64Url` | pwa/utils/biometricCredentials.ts:115-124 | Swapping back, padding and copying characters gives the decoded bytes, and throws when atob does. |
| `Base64Url.UrlRoundTrip` | pwa/utils/biometricCredentials.ts:103-124 | The decoder inverts the encoder for every byte array of every length. |
| `Base64Url.EncodeThenDecode` | pwa/utils/biometricCredentials.ts:103-124 | The same for the two loops run one after the other. |
| `StorageAdapter.Storage.Set` | pwa/lib/storage-adapter.ts:104-115 | A key goes to the database or to localStorage by its prefix; a refused write changes nothing. |
| `StorageAdapter.Storage.Clear` | pwa/lib/storage-adapter.ts:130-147 | The database empties in one transaction, then clearable keys go one by one until a removal throws. |
| `StorageAdapter.Storage.CollectClearable` | pwa/lib/storage-adapter.ts:130-147 | The loop collects exactly the clearable keys, in order. |
| `StorageAdapter.ClearsExactly` | pwa/lib/storage-adapter.ts:130-147 | Removing the collected keys one by one keeps exactly the items whose key has no cleared prefix. |
| `StorageAdapter.KeyPlacement` | pwa/lib/storage-adapter.ts:7-11 | Wallet and authorization keys live in the database; referrer keys do not, and outlive a clear, which takes the unprefixed keys. |
| `SnapshotTheorems.ReloadCommitted` | pwa/lib/walletStorage.ts:93-136 | A written snapshot of a complete state reloads as that state and revision. |
| `SnapshotTheorems.CrashAtomic` | pwa/lib/walletStorage.ts:162-249 | Wherever inside an operation the process dies, a fresh load gives the state of the completed operation, once anything was written. |
| `SnapshotTheorems.RunCrashAtomic` | pwa/lib/walletStorage.ts:106-249 | Over every serial run with any failures: at every crash point the load is the one from before the operation or the completed one, never a mixture. |
| `SnapshotTheorems.AgreementAfter` | pwa/lib/walletStorage.ts:162-249 | Exactly when memory and storage agree after an operation. |
| `SnapshotTheorems.RunAgrees` | pwa/lib/walletStorage.ts:162-249 | Without a half-done clear they agree after every run. |
| `SnapshotTheorems.InitializeAgrees` | pwa/lib/walletStorage.ts:120-149 | Loading succeeds exactly when a snapshot is valid or readable mirrors can be migrated, and migrating does not change what loads. |
| `SnapshotTheorems.RevisionAfter` | pwa/lib/walletStorage.ts:93-104 | A committed update raises stored and remembered revision together by one. |
| `SnapshotTheorems.MirroredAfter` | pwa/lib/walletStorage.ts:109-117 | Exactly when the mirrors spell out memory after an update. |
| `SnapshotTheorems.MirrorsMatchSnapshot` | pwa/lib/walletStorage.ts:109-149 | From empty or legacy-only storage, while mirrors work and no clear stops half way, mirrors and snapshot load the same state after every run. |
| `SnapshotTheorems.HalfClearThenUpdate` | pwa/lib/walletStorage.ts:237-249 | The exception, with its exact condition. |
| `SnapshotTheorems.ChangedExactly` | pwa/lib/walletStorage.ts:183-194 | The changed keys are exactly those of the updates that are objects or differ from what memory holds, each once and in order. |
| `SnapshotTheorems.BatchHolds` | pwa/lib/walletStorage.ts:183-209 | A batch that succeeds leaves every update in memory and every other key alone; it writes exactly when the snapshot is accepted and some update is an object or differs, and otherwise changes nothing. |
| `SnapshotTheorems.SetHolds` | pwa/lib/walletStorage.ts:162-180 | The same for a single update, which an object also skips when it is the very reference held. |
| `SnapshotTheorems.ClearResets` | pwa/lib/walletStorage.ts:237-249 | After a complete clear memory and a fresh load hold the defaults, locked and without a wallet, at revision zero. |
| `SnapshotStore.WalletStorage.constructor` | pwa/lib/walletStorage.ts:59-68 | A fresh instance holds the defaults at revision zero. |
| `SnapshotStore.WalletStorage.PersistSnapshot` | pwa/lib/walletStorage.ts:93-104 | One write under the next revision; the revision moves only when it works. |
| `SnapshotStore.WalletStorage.PersistLegacyMirrors` | pwa/lib/walletStorage.ts:109-117 | Every mirror is attempted in order, whatever the others do. |
| `SnapshotStore.WalletStorage.InitializeState` | pwa/lib/walletStorage.ts:120-149 | Memory and every durable write of loading and migrating. |
| `SnapshotStore.WalletStorage.SetValue` | pwa/lib/walletStorage.ts:162-180 | Memory, every durable write and the one listener call of a single update; on success memory holds it and every other key is as it was. |
| `SnapshotStore.WalletStorage.BatchUpdate` | pwa/lib/walletStorage.ts:183-209 | Memory, every durable write, and one listener call per changed key with its old value; on success memory holds every update, and it fails, changing nothing, exactly when something had to be written and the snapshot is refused. |
| `SnapshotStore.WalletStorage.NextState` | pwa/lib/walletStorage.ts:183-194 | The comparison loop computes the overlaid state and the changed keys. |
| `SnapshotStore.NotifiedExactly` | pwa/lib/walletStorage.ts:183-209 | A committed batch calls a listener for a key exactly when its value is an object or differs from what memory held, once, with the new and the old value. |
| `SnapshotStore.WalletStorage.Clear` | pwa/lib/walletStorage.ts:237-249 | Storage and memory after a clear, whole or half done, and the listener calls, one per key the state had. |
| `SnapshotOverlap.StepKeeps` | pwa/lib/walletStorage.ts:93-104 | Every step of overlapping calls keeps the invariant and never lowers the stored revision. |
| `SnapshotOverlap.OverlappingRun` | pwa/lib/walletStorage.ts:93-209 | In every overlapping run in-flight revisions are the current one or the next, memory is the last finished state, and a reload gives memory or a landed call's state. |
| `SnapshotOverlap.StoredRevisionsGrow` | pwa/lib/walletStorage.ts:93-104 | Stored revisions never decrease along a run. |
| `SnapshotOverlap.NoOverlapNoLoss` | pwa/lib/walletStorage.ts:162-209 | When every finished call had seen those before it, memory holds all updates in order. |
| `SnapshotOverlap.ValueOfSource` | pwa/lib/walletStorage.ts:162-209 | After any number of finished calls the value of a key is the one left by the call that the chain of seen states leads back to. |
| `SnapshotOverlap.NoLossExactly` | pwa/lib/walletStorage.ts:162-209 | Over every run memory holds the last finished update of a key exactly when the call the chain leads back to left that value. |
| `SnapshotOverlap.UpdateSurvivesExactly` | pwa/lib/walletStorage.ts:162-209 | Over every run an update with a value of its own is in memory at the end exactly when the chain leads back to its call. |
| `SnapshotOverlap.FinishReverts` | pwa/lib/walletStorage.ts:162-209 | What a finishing call does to keys it does not write: exactly when another call's update is lost. |
| `SnapshotOverlap.LostUpdate` | pwa/lib/walletStorage.ts:162-209 | Two overlapping calls on different keys: both succeed, the first update is gone, storage agrees. |
| `SnapshotOverlap.SerialRefines` | pwa/lib/walletStorage.ts:162-209 | A call that overlaps none has exactly the serial effect. |
| `DeepLink.StepKeeps` | app/composables/useDeepLinkBridge.ts:41-152 | Every callback, wait, timer, cleanup and unmount keeps the invariant. |
| `DeepLink.SettledAtMostOnce` | app/composables/useDeepLinkBridge.ts:41-152 | In every run each promise is settled at most once, and an unsettled one owns a live timer exactly when no throwing callback ever hit it. |
| `DeepLink.StepLosesTimer` | app/composables/useDeepLinkBridge.ts:74-93 | Exactly which steps take the timer of an unsettled wait without settling it. |
| `DeepLink.SettledBy` | app/composables/useDeepLinkBridge.ts:41-152 | Only its own session's callback, its own timer, cleanup or unmount settles a promise. |
| `DeepLink.SettledExactly` | app/composables/useDeepLinkBridge.ts:41-152 | Over every run a promise is settled with a value or reason exactly when an event that settles it so met it: for a callback of its session while it is registered, resolved with the data unless the action is "error", and then rejected with `data.error`, or "Unknown error" when that is falsy; or its live timer, a cleanup or an unmount. |
| `DeepLink.OpenSettles` | app/composables/useDeepLinkBridge.ts:74-93 | The same for one URL: what it does to a wait, from the URL's own parameters. |
| `DeepLink.CallbackIs` | app/composables/useDeepLinkBridge.ts:48-64 | Exactly which URLs are accepted, and as which callback. |
| `DeepLink.DispatchedExactly` | app/composables/useDeepLinkBridge.ts:94-100 | A window event is dispatched exactly for an accepted callback that finds no wait registered for its session. |
| `DeepLink.ResolvedByOwnSession` | app/composables/useDeepLinkBridge.ts:74-93 | A resolved promise got the data of a callback for its own session that arrived while it waited. |
| `DeepLink.AfterUnmount` | app/composables/useDeepLinkBridge.ts:208-225 | Unmounting settles exactly the registered waits. |
| `DeepLink.StrandedForever` | app/composables/useDeepLinkBridge.ts:41-152 | A wait with neither timer nor registration is never settled by anything that follows. |
| `DeepLink.StrandedExactly` | app/composables/useDeepLinkBridge.ts:41-152 | A wait can never be settled any more exactly when a throwing callback hit it and its registration was lost. |
| `DeepLink.ThrowingCallbackStrands` | app/composables/useDeepLinkBridge.ts:74-93 | An unprintable error followed by a wait on the same session strands the first wait. |
| `DeepLink.OlderTimerDropsNewer` | app/composables/useDeepLinkBridge.ts:110-128 | A displaced wait's timer drops the registration of the wait that displaced it. |
| `DeepLink.CallbackSettles` | app/composables/useDeepLinkBridge.ts:74-93 | An accepted callback settles an unsettled wait of its session exactly when the wait is still registered and the callback does not throw. |
| `DeepLink.StepRegistered` | app/composables/useDeepLinkBridge.ts:110-128 | Exactly which steps take an unsettled wait out of the map. |
| `DeepLink.RegisteredExactly` | app/composables/useDeepLinkBridge.ts:41-152 | Over every run an unsettled wait is registered exactly when no later wait took its session and no other wait's timer fired under it. |
| `DeepLink.HistoryIsNewest` | app/composables/useDeepLinkBridge.ts:66-72 | The history is the newest fifty accepted callbacks, latest first. |
| `DeepLink.CleanupRejects` | app/composables/useDeepLinkBridge.ts:133-152 | A cleanup rejects exactly the registered waits, whenever they are due. |
| `DeepLink.ExpiredExactly` | app/composables/useDeepLinkBridge.ts:133-152 | Over every run a wait ends as expired at a time exactly when a cleanup at that time found it registered. |
| `DeepLink.ExpiredEarly` | app/composables/useDeepLinkBridge.ts:133-152 | Over every run a wait is rejected as expired before its deadline exactly when a cleanup came before the deadline and found it registered. |
| `DeepLink.ExpiresAtOnce` | app/composables/useDeepLinkBridge.ts:133-152 | A cleanup at the moment a wait is made rejects it, whatever its timeout. |
| `DeepLink.DeepLinkBridge.HandleAppUrlOpen` | app/composables/useDeepLinkBridge.ts:41-104 | The handler makes exactly the modelled step, parse failures and missing parameters included, and the wait it meets is settled as `DeepLink.SettledExactly` says. |
| `DeepLink.DeepLinkBridge.WaitForDeepLinkResponse` | app/composables/useDeepLinkBridge.ts:110-128 | A new wait with its timer and deadline, displacing an earlier registration. |
| `DeepLink.DeepLinkBridge.TimeoutElapses` | app/composables/useDeepLinkBridge.ts:115-118 | The timer drops whatever is registered under the session and rejects its own promise. |
| `DeepLink.DeepLinkBridge.CleanupExpiredRequests` | app/composables/useDeepLinkBridge.ts:133-152 | The two loops reject every registered wait once, due or not, and empty the map. |
| `DeepLink.DeepLinkBridge.OnUnmounted` | app/composables/useDeepLinkBridge.ts:208-225 | The loop and the final clear do the same on unmount. |
| `Background.NothingLostOrRepeated` | client/entrypoints/background.ts:27-33 | Over all interleavings every received message has been handed over or is queued, once, and queued messages leave in arrival order. |
| `Background.StepInLine` | client/entrypoints/background.ts:111-118 | Exactly which step breaks the arrival order of hand-overs and backlog: a message that arrives at a ready core with a backlog. |
| `Background.RunInLine` | client/entrypoints/background.ts:111-118 | Over every run hand-overs and backlog are in arrival order exactly when no message overtook the queue. |
| `Background.HandedInArrivalOrder` | client/entrypoints/background.ts:27-33 | Over every run that has worked off its backlog, messages were handed over in arrival order exactly when none overtook another. |
| `Background.NewcomerOvertakes` | client/entrypoints/background.ts:111-118 | It happens while the first drain awaits its first handler. |
| `Background.StepKeeps` | client/entrypoints/background.ts:56-156 | Every step conserves the messages and their order. |
| `Background.BacklogIsDrained` | client/entrypoints/background.ts:56-156 | Without faults a ready service with a backlog has a drain at work. |
| `Background.BacklogStranded` | client/entrypoints/background.ts:63-76 | Exactly which steps leave a backlog with nobody working on it, and exactly which end that. |
| `Background.StrandedExactly` | client/entrypoints/background.ts:63-76 | Over every run a backlog is at some point left alone exactly when there was such a step. |
| `Background.HandsExactly` | client/entrypoints/background.ts:111-118 | Exactly when a step calls the message handler. |
| `Background.ReadyExactly` | client/entrypoints/background.ts:59-156 | Over every run the core counts as ready exactly when a load or reload ended, or a reload's handler failed, and the environment has not changed since. |
| `Background.HandedWhileNotReady` | client/entrypoints/background.ts:27-33 | A message is handed to a core that is not ready exactly by a drain that goes on with a backlog. |
| `Background.DrainOutlivesChange` | client/entrypoints/background.ts:59-76 | It happens: an environment change does not stop a drain. |
| `Background.ReadyTooSoon` | client/entrypoints/background.ts:59-76 | Exactly which steps declare the core ready while a reload is under way, and exactly which end that. |
| `Background.PrematureExactly` | client/entrypoints/background.ts:59-76 | Over every run the core is at some point ready during a reload exactly when there was such a step. |
| `Background.PrematureRuns` | client/entrypoints/background.ts:59-76 | Two such runs in which no handler fails. |
| `Background.DrainEmptiesQueue` | client/entrypoints/background.ts:27-33 | One drain whose handlers succeed hands over the whole backlog in order. |
| `Background.BackgroundService.ProcessQueuedMessages` | client/entrypoints/background.ts:27-33 | The loop over any number of awaits, messages arriving meanwhile, is the modelled drain resumed once per await. |
| `Background.BackgroundService.OnContentMessage` | client/entrypoints/background.ts:111-118 | A message is queued while the core is not ready and handed over otherwise. |
| `Background.BackgroundService.OnEnvChanged` | client/entrypoints/background.ts:59-62 | The flag falls and a reload starts. |
| `Background.BackgroundService.OnLoaded` | client/entrypoints/background.ts:148-156 | The first load ends: the flag rises and a drain starts, or nothing happens. |
| `Background.BackgroundService.OnReloaded` | client/entrypoints/background.ts:63-76 | A reload ends: the flag rises either way, a drain starts only when it worked. |
| `Background.BackgroundService.OnStateLoadFailed` | client/entrypoints/background.ts:63-76 | A rejected state load ends the reload and leaves the flag down. |
| `Background.BackgroundService.TakeNext` | client/entrypoints/background.ts:27-33 | The loop test, the shift and the call, up to the await. |
| `Background.BackgroundService.OnHandlerSettled` | client/entrypoints/background.ts:27-33 | The loop goes on, or a failure ends it and a reload's catch block raises the flag. |
| `DappBridge.CountsAndAnswers` | pwa/composables/usePwaDappBridge.ts:270-305 | Over all interleavings the pending count is the number of unfinished handlers and each has at most one response, under its own id and origin. |
| `DappBridge.StepCounted` | pwa/composables/usePwaDappBridge.ts:270-305 | Every step keeps the count; a finishing step lowers it by one from at least one. |
| `DappBridge.StepResponds` | pwa/composables/usePwaDappBridge.ts:270-305 | A handler is answered by the step that finishes it, exactly when a post gets through, and by no other. |
| `DappBridge.AnsweredExactly` | pwa/composables/usePwaDappBridge.ts:270-305 | Over every run a handler has finished exactly when a step finished it, and has exactly one response exactly when a post got through at that step; otherwise it has none. |
| `DappBridge.ExecutedTwiceOnlyByOverlap` | pwa/composables/usePwaDappBridge.ts:214-268 | No handler executes twice; two executions of one key come only from overlapping validations, and never from two requestAccounts. |
| `DappBridge.RecordedExactly` | pwa/composables/usePwaDappBridge.ts:214-244 | For a handler awaiting authorisation another is admitted under its key exactly when the key is recorded, which the code does not test again. |
| `DappBridge.ExecutedTwiceExactly` | pwa/composables/usePwaDappBridge.ts:214-268 | Over every run one key executes twice only if some handler was authorised with its key recorded since its own test, and, once all admitted handlers have executed, exactly then. |
| `DappBridge.OverlappingDuplicates` | pwa/composables/usePwaDappBridge.ts:214-244 | Two overlapping validations of one key both execute. |
| `DappBridge.KeyInjective` | pwa/composables/usePwaDappBridge.ts:227 | Within one origin another id and nonce share the key exactly when the id or the nonce holds a colon. |
| `DappBridge.AcceptableKeyInjective` | pwa/composables/usePwaDappBridge.ts:218-227 | Among ids and nonces that are not empty, exactly when the id holds one past its start or the nonce one before its end. |
| `DappBridge.KeyOfOrigin` | pwa/composables/usePwaDappBridge.ts:218-227 | Exactly which texts are keys of acceptable requests from an origin. |
| `DappBridge.OriginsCollide` | pwa/composables/usePwaDappBridge.ts:218-227 | Two origins share a key exactly when they are equal or one extends the other by a colon. |
| `DappBridge.DuplicateExactly` | pwa/composables/usePwaDappBridge.ts:214-244 | A message that passes all other checks is turned away as a duplicate exactly when a handler was admitted under its key. |
| `DappBridge.KeyCollision` | pwa/composables/usePwaDappBridge.ts:214-244 | Through the checks: an unseen request is turned away as the duplicate of one from the origin without its port, and of one from its own origin with the colon moved. |
| `DappBridge.CheckExactly` | pwa/composables/usePwaDappBridge.ts:214-233 | A message passes exactly from an allowed origin and the frame, with id, action and nonce, not expired, naming no other origin, under a new key; `OriginMismatch` means exactly that it names another origin and nothing else is wrong. |
| `DappBridge.ArrivalExactly` | pwa/composables/usePwaDappBridge.ts:214-244 | What becomes of an arriving message: refused, admitted at once, or sent to authorisation, exactly when. |
| `DappBridge.ExecutesExactly` | pwa/composables/usePwaDappBridge.ts:235-268 | A handler executes exactly when it is continued after admission, and only a positive answer admits one that waits for it. |
| `DappBridge.ExecutedSound` | pwa/composables/usePwaDappBridge.ts:214-268 | Over every run each executed handler's message was sound when it arrived, and unless it asks for accounts its origin was authorised for it afterwards. |
| `DappBridge.LastError` | pwa/composables/usePwaDappBridge.ts:274-303 | The last error is cleared by an arrival, set by a handler that finishes in failure, and kept otherwise. |
| `DappBridge.PwaDappBridge.HandleMessage` | pwa/composables/usePwaDappBridge.ts:214-276 | The first stretch: count, checks in order, and the insertion for requestAccounts; the message is refused exactly when it is not sound or its key is recorded. |
| `DappBridge.PwaDappBridge.ResumeValidation` | pwa/composables/usePwaDappBridge.ts:235-243 | Insertion or refusal after the authorisation lookup. |
| `DappBridge.PwaDappBridge.ResumeHandler` | pwa/composables/usePwaDappBridge.ts:277-305 | Execution, or the failure response of a refused request. |
| `DappBridge.PwaDappBridge.ResumeAction` | pwa/composables/usePwaDappBridge.ts:278-305 | The response to a settled action, with the failure response when posting throws. |
| `AgentSafety.AllowedExactly` | pwa/composables/usePwaAgentAdapterSafety.ts:36-68 | A report is accepted exactly when both statuses read as safe ones. |
| `AgentSafety.Pick` | pwa/composables/usePwaAgentAdapterSafety.ts:21-28 | The result is the value of one of the keys, or nothing when none has one. |
| `AgentSafety.Spellings` | pwa/composables/usePwaAgentAdapterSafety.ts:21-48 | Which spellings of status and coverage are read, and in which order. |
| `AgentGate.ValueMovementsNeedApproval` | pwa/composables/usePwaAgentAdapter.ts:39-58 | Every value-moving operation is an agent operation that needs approval. |
| `AgentGate.NeedsApproval` | pwa/composables/usePwaAgentAdapter.ts:39-58 | Exactly which operations need approval. |
| `AgentGate.LocalNeverPasses` | pwa/composables/usePwaAgentAdapter.ts:381-422 | A locally built snapshot is never accepted. |
| `AgentGate.SuccessKeepsStatus` | pwa/composables/usePwaAgentAdapter.ts:66-70 | Wrapping a payload keeps its own fields, its own ok included. |
| `AgentGate.VerdictOf` | pwa/composables/usePwaAgentAdapter.ts:470-496 | What passes is exactly the core's own vouching report. |
| `AgentGate.TakeSafetySnapshot` | pwa/composables/usePwaAgentAdapter.ts:381-422 | The core's report when it gives one, else a local one that reads as degraded or unsafe, or an error. |
| `AgentGate.RequireStpSafety` | pwa/composables/usePwaAgentAdapter.ts:470-496 | The preflight clears a value-moving operation exactly when the core vouches. |
| `AgentGate.MoveValue` | pwa/composables/usePwaAgentAdapter.ts:644-762 | One value-moving call, last, with the arguments `AgentGate.MovementAsked` gives, exactly when ready, identified, vouched for and complete. |
| `AgentGate.MovementCall` | pwa/composables/usePwaAgentAdapter.ts:644-762 | Evaluating the arguments one after the other gives the call of `AgentGate.MovementAsked`, or an exception. |
| `AgentGate.MovementAsked` | pwa/composables/usePwaAgentAdapter.ts:644-762 | Per operation and over every input, the call is exactly the one whose channel, destination, asset, lists, fee rate, amount, force and fee_utxos are what `params` hold under those names, trimmed, filtered and defaulted as the code does. |
| `AgentGate.OtherOperation` | pwa/composables/usePwaAgentAdapter.ts:514-643 | The remaining operations move no channel value, and call nothing when a required text or readiness is missing. |
| `AgentGate.ExecutePwaAgentOperation` | pwa/composables/usePwaAgentAdapter.ts:498-770 | Over all operations, parameters and replies, a close, splice, lock or unlock reaches the core exactly when permitted; without approval nothing is called; every argument of the one call is what the parameters ask for. |
| `AgentTransactions.UniqueKeeps` | pwa/composables/usePwaAgentAdapter.ts:158-165 | De-duplicating loses nothing, repeats nothing and keeps first-come order. |
| `AgentTransactions.TxIdList` | pwa/composables/usePwaAgentAdapter.ts:158-165 | The list is the distinct non-empty ids, listed ones first. |
| `AgentTransactions.IdsAsked` | pwa/composables/usePwaAgentAdapter.ts:158-166 | The ids asked for are the non-empty listed ones and then the trimmed single one. |
| `AgentTransactions.LayersAsked` | pwa/composables/usePwaAgentAdapter.ts:301-304 | Both layers for a channel transaction that names none, else the one named, Bitcoin by default. |
| `AgentTransactions.QueryAll` | pwa/composables/usePwaAgentAdapter.ts:301-310 | The nested loops ask for every id on every layer, ids first. |
| `AgentTransactions.PollTransactions` | pwa/composables/usePwaAgentAdapter.ts:311-326 | Confirmed is reported exactly when something is visible and everything visible is confirmed. |
| `AgentTransactions.Poll` | pwa/composables/usePwaAgentAdapter.ts:272-326 | From the parameters: no ids, an exception, or the status drawn from every asked id on every layer. |
| `AgentTransactions.QueriesComplete` | pwa/composables/usePwaAgentAdapter.ts:301-310 | The queries are the full product of ids and layers. |
| `Credentials.SearchModes` | pwa/utils/biometricCredentials.ts:458-490 | The stored mode comes first, else the platform's, then the other one; at most these two are tried, and exactly which yields. |
| `Credentials.WrappingOpens` | pwa/utils/biometricCredentials.ts:195-240 | A wrapping credential opens to its password, less a leading byte order mark, under its own key, whatever mode is recorded. |
| `Credentials.CreateExactly` | pwa/utils/biometricCredentials.ts:501-544 | A creation succeeds exactly when it reaches its save and the save works; what it leaves in memory and storage in every case, and under which mode. |
| `Credentials.LoadsExactly` | pwa/utils/biometricCredentials.ts:245-254 | Loading fails only on corrupt storage, happens once, and takes up what is stored. |
| `Credentials.CreateHolds` | pwa/utils/biometricCredentials.ts:501-544 | A creation that succeeds leaves memory and storage with a credential wrapping the password. |
| `Credentials.VerifyReturns` | pwa/utils/biometricCredentials.ts:546-579 | A verification gives the password back exactly when a mode yields output and the save works (and no byte order mark leads), and keeps the wrapping. |
| `Credentials.EveryVerificationReturnsThePassword` | pwa/utils/biometricCredentials.ts:501-579 | After a creation, across any verifications, mode changes, failing saves and reloads, a verification gives back the very password exactly when a mode yields output and its save works; a leading byte order mark is lost. |
| `Credentials.FailedSaveReplacesMemory` | pwa/utils/biometricCredentials.ts:533-579 | A creation that fails only in its save: verifications before the next reload work on the new credential, a reload straight away goes back to the stored one. |
| `Credentials.BiometricCredentialManager.EnsureLoaded` | pwa/utils/biometricCredentials.ts:245-254 | Loading happens once and fails on unreadable storage. |
| `Credentials.BiometricCredentialManager.TryGetPrfOutput` | pwa/utils/biometricCredentials.ts:398-456 | One assertion gives the PRF of credential and salt, nothing, or an error. |
| `Credentials.BiometricCredentialManager.GetPrfOutput` | pwa/utils/biometricCredentials.ts:458-490 | The mode loop computes the search, in at most two attempts. |
| `Credentials.BiometricCredentialManager.CreateCredential` | pwa/utils/biometricCredentials.ts:501-544 | Memory, storage and result of a creation. |
| `Credentials.BiometricCredentialManager.VerifyCredential` | pwa/utils/biometricCredentials.ts:546-579 | Memory, storage and result of a verification. |
| `Catalogue.StepExactly` | app/store/wallet.ts:151-457 | Each operation keeps list agreement, account zero, hasWallet and a valid selection exactly when its guard holds beforehand. |
| `Catalogue.RunKeeps` | app/store/wallet.ts:151-457 | From any start that meets the invariant, over every run on known ids with successful lookups, it holds. |
| `Catalogue.NextWalletFound` | app/store/wallet.ts:350-366 | Deleting the active wallet always finds a wallet with an account. |
| `Catalogue.CreateWithoutLookup` | app/store/wallet.ts:179-219 | A creation with failed lookups sets hasWallet with no wallet listed. |
| `Catalogue.WalletAdded` | app/store/wallet.ts:179-278 | A new wallet goes to the end, numbered from one, with one account at the looked-up address and key, and is selected. |
| `Catalogue.AccountAdded` | app/store/wallet.ts:375-397 | A new account goes to the end of the active wallet under its own index, name, address and key; nothing else changes but the selection. |
| `Catalogue.SelectionMoved` | app/store/wallet.ts:151-178 | Switching selects the account asked for, or the first one of the wallet asked for, and changes no list. |
| `Catalogue.WalletDeleted` | app/store/wallet.ts:325-373 | That wallet alone goes; if it was active its predecessor, or for the first one its successor, is selected. |
| `Catalogue.AccountDeleted` | app/store/wallet.ts:447-457 | That account of the active wallet alone goes, never the first, and the one before it is selected. |
| `Catalogue.OnlyRenamed` | app/store/wallet.ts:428-445 | Renaming changes one name. |
| `Catalogue.WalletStore.CreateWallet` | app/store/wallet.ts:179-219 | Selection and both lists after a creation. |
| `Catalogue.WalletStore.ImportWallet` | app/store/wallet.ts:221-278 | Selection and both lists after an import. |
| `Catalogue.WalletStore.AddAccount` | app/store/wallet.ts:375-397 | The account goes to the active wallet of the stored list and is selected. |
| `Catalogue.WalletStore.SwitchToAccount` | app/store/wallet.ts:399-426 | The index changes only when the lookups came back. |
| `Catalogue.WalletStore.SwitchWallet` | app/store/wallet.ts:151-178 | The wallet and its first account are selected. |
| `Catalogue.WalletStore.DeleteWallet` | app/store/wallet.ts:325-373 | Both lists and the selection after a deletion; under the invariant the branch without a next wallet is not taken. |
| `Catalogue.WalletStore.DeleteAccount` | app/store/wallet.ts:447-457 | Any account but the first is removed and its predecessor selected. |
| `Catalogue.WalletStore.StoreWallets` | app/lib/walletStorage.ts:109-132 | Storing a list brings the reactive copy in line through the subscription. |
| `Catalogue.WalletStore.UpdateAccountName` | app/store/wallet.ts:428-437 | Only the name of the active wallet's account changes. |
| `Catalogue.WalletStore.UpdateWalletName` | app/store/wallet.ts:439-445 | Only the wallet's name changes. |
| `Referrers.KeptTwice` | pwa/composables/useReferrerManager.ts:145-171 | Cleaning twice is cleaning once. |
| `Referrers.KeptWithout` | pwa/composables/useReferrerManager.ts:56-70 | Removing a name without a transaction id does not change what is kept. |
| `Referrers.KeptJoins` | pwa/composables/useReferrerManager.ts:145-171 | The filter judges names one by one and keeps their order and number. |
| `Referrers.WithoutJoins` | pwa/composables/useReferrerManager.ts:56-70 | So does a removal. |
| `Referrers.FiltersOne` | pwa/composables/useReferrerManager.ts:133-142 | One name is kept exactly when it has a non-empty transaction id, and removed exactly when it is the one asked for. |
| `Referrers.StoringNames` | pwa/composables/useReferrerManager.ts:7-24 | Rewriting one address's list leaves every transaction id and every other list alone. |
| `Referrers.TxIdKeyInjective` | pwa/composables/useReferrerManager.ts:22-24 | One address's transaction id entries are told apart by name. |
| `Referrers.ReferrerManager.AddLocalReferrerName` | pwa/composables/useReferrerManager.ts:39-53 | A new name goes to the end, a known one changes nothing, and an entry that is no list or does not parse is reported and left alone. |
| `Referrers.ReferrerManager.RemoveLocalReferrerName` | pwa/composables/useReferrerManager.ts:56-70 | Every occurrence of the name goes, the rest keep their order; it succeeds exactly when the entry can be used and any write works. |
| `Referrers.ReferrerManager.CleanInvalidReferrerCache` | pwa/composables/useReferrerManager.ts:210-231 | Repeated removal over a copy leaves the order-preserving filter of valid names, even when cut short loses none of them, and throws without a write on JSON that is no list. |
| `Referrers.ReferrerManager.GetAllReferrerTxIds` | pwa/composables/useReferrerManager.ts:145-171 | One rewrite leaves the same list, and the map has exactly those names with their ids; nothing is written when nothing drops out. |
| `Referrers.ReferrerManager.CleanTwice` | pwa/composables/useReferrerManager.ts:145-231 | A cleaning cut short and then repeated by either loop ends with the same list. |
| `ReferrersOverlap.StepLoses` | pwa/composables/useReferrerManager.ts:39-171 | With calls overlapping, exactly which steps take a name out of the list. |
| `ReferrersOverlap.RewriteLoses` | pwa/composables/useReferrerManager.ts:145-171 | Whatever else finishes between the rewriting call's reading and its writing, a name then listed is lost exactly when the write works, the loop missed some name it had read, and found no transaction id for this one. |
| `ReferrersOverlap.NewNameLost` | pwa/composables/useReferrerManager.ts:145-171 | A name added after the reading is lost exactly when the list is rewritten. |
| `ReferrersOverlap.AddLoses` | pwa/composables/useReferrerManager.ts:39-53 | An addition that overlaps others loses exactly the names added since it read the list. |
| `ReferrersOverlap.RemoveLoses` | pwa/composables/useReferrerManager.ts:56-70 | A removal loses those too, besides its own name. |
| `ReferrersOverlap.AddLostInRewrite` | pwa/composables/useReferrerManager.ts:145-171 | It happens: both calls succeed and the added name is gone. |
| `ReferrersOverlap.RewriteAlone` | pwa/composables/useReferrerManager.ts:145-171 | With nothing in between the stretches leave the list as the whole call does. |

## Left out

- Knowledge-question recovery (`RecoverDKVSShare`, `RecoverWithKnowledge`, `fuzzy.go`), publishing and loading packages, `RootBootstrapBackup` and the share text codec (`EncodeRecoveryShare`, `DecodeRecoveryShare`): the package model takes the knowledge step as a function that succeeds or fails.
- `sdk/account/state.go` and the managed recovery storage: separate records around the same package.
- The X25519 key generator's optional extra read of one random byte; strings that are not well-formed UTF-8; nil receivers and nil readers.
- Snapshot store: a caller that mutates an array it got from the store and passes the same reference back (the early return then skips the write) enters only as the `sameReference` input; a stored snapshot whose `state` is a non-empty string or array (its spread adds index keys); JSON numbers with fractions; `undefined` values; clear or initialise overlapping other calls; failing reads.
- Deep links: URL building, the platform's URL parser (its result is the input), wall-clock time.
- Background worker: approval windows, popup and keep-alive ports, and events forwarded to the content script.
- DApp bridge: the alias table and parameter shaping (`normaliseAction` beyond the two spellings of requestAccounts, `asParamsObject`), which action goes to which handler, and envelope fields that are not strings.
- AgentGate.OtherOperation: the operations that move no channel value are one core call named after the operation, and their results and amount checks are left open; the gate only needs that they make no close, splice, lock or unlock call.
- Agent gate: the wallet's readiness is read once, before the awaited safety preflight, as the code does; fields of the local snapshot and of the assessment details that the gate does not read; `Number(value)` and `JSON.parse` are parameters; reservation polling, the indexer's URLs and the texts of messages.
- JavaScript strings: upper and lower case are exact where the result is plain ASCII, which is all that the comparisons need; integers print in decimal notation only.
- Credentials: passwords that are not well-formed Unicode, names, dates, transports, debug output, deleting, disabling and clearing credentials; the stored JSON object is a list of entries in order, so integer-like ids would be listed out of order.
- Catalogue: addresses and keys of the selection, network, chain, lock and password values, unlocking, failing storage writes, core calls that reject, and the guards against two overlapping switches.
- Referrers: bound referrers, and clearing a single name with its transaction id; a stored JSON text, whose characters the loops would take for names, and lists that hold other things than texts.
- User interface, WASM bridges, HTTP clients, configuration: no logic of the kind modelled here. `client/lib/walletStorage.ts` and the other copies of the wallet store repeat what is modelled.
