// NormalizeBackup and the validators of sdk/account/validation.go.

module AccountBackup {
  import opened Basics
  import opened AccountTypes
  import opened Text

  /** A blank account name becomes "Account n", n counted from one in uint32 arithmetic. */
  function NormalizeSub(s: SubAccount): SubAccount {
    var name := NormalizeSpace(s.name);
    SubAccount(s.index,
               if name == "" then "Account " + Decimal((s.index + 1) % 0x1_0000_0000) else name,
               NormalizeSpace(s.did))
  }

  function NormalizeSubs(s: seq<SubAccount>): (r: seq<SubAccount>)
    ensures |r| == |s|
  {
    seq(|s|, i requires 0 <= i < |s| => NormalizeSub(s[i]))
  }

  function Indexes(s: seq<SubAccount>): (r: seq<nat>)
    ensures |r| == |s|
  {
    seq(|s|, i requires 0 <= i < |s| => s[i].index)
  }

  /** Indexes below the count, none twice, none missing; non-empty DIDs are different. */
  predicate ValidSubs(s: seq<SubAccount>, count: nat) {
    && (forall i :: 0 <= i < |s| ==> s[i].index < count)
    && Distinct(Indexes(s))
    && (forall i, j :: 0 <= i < j < |s| ==> s[i].did == "" || s[i].did != s[j].did)
    && (forall k :: 0 <= k < count ==> k in Indexes(s))
  }

  function NormalizeWallet(c: Suite, w: WalletBackup): Outcome<WalletBackup> {
    var name, mnemonic := NormalizeSpace(w.name), NormalizeSpace(w.mnemonic);
    var subs := NormalizeSubs(w.subAccounts);
    if name == "" || !c.mnemonicValid(mnemonic) || w.accountCount == 0 || w.accountCount != |w.subAccounts| then
      Err(InvalidBackup)
    else if !ValidSubs(subs, w.accountCount) then Err(InvalidBackup)
    else Ok(WalletBackup(name, mnemonic, w.accountCount, subs))
  }

  function NormalizeWallets(c: Suite, ws: seq<WalletBackup>): (r: Outcome<seq<WalletBackup>>)
    ensures r.Ok? ==> |r.value| == |ws|
  {
    if ws == [] then Ok([])
    else
      var first :- NormalizeWallet(c, ws[0]);
      var rest :- NormalizeWallets(c, ws[1..]);
      Ok([first] + rest)
  }

  function Names(ws: seq<WalletBackup>): (r: seq<string>)
    ensures |r| == |ws|
  {
    seq(|ws|, i requires 0 <= i < |ws| => ws[i].name)
  }

  function NormalizeBackup(c: Suite, b: Backup): Outcome<Backup> {
    if b.version != VERSION || b.wallets == [] then Err(InvalidBackup)
    else
      var wallets :- NormalizeWallets(c, b.wallets);
      if Distinct(Names(wallets)) then Ok(Backup(VERSION, wallets)) else Err(InvalidBackup)
  }

  // ---- What normalising accepts and what it gives ----

  /** Indexes below the count, none twice. */
  predicate Numbered(subs: seq<SubAccount>, count: nat) {
    && (forall i :: 0 <= i < |subs| ==> subs[i].index < count)
    && (forall i, j :: 0 <= i < j < |subs| ==> subs[i].index != subs[j].index)
  }

  function Below(n: nat): (r: set<nat>)
    ensures |r| == n && forall k: nat :: k in r <==> k < n
  {
    if n == 0 then {}
    else
      var less := Below(n - 1);
      assert n - 1 !in less;
      less + {n - 1}
  }

  function Members(s: seq<nat>): (r: set<nat>)
    ensures forall x :: x in r <==> x in s
  {
    if s == [] then {}
    else
      assert s == s[..|s| - 1] + [s[|s| - 1]];
      Members(s[..|s| - 1]) + {s[|s| - 1]}
  }

  lemma {:induction false} DistinctMembers(s: seq<nat>)
    requires Distinct(s)
    ensures |Members(s)| == |s|
  {
    if s == [] {
    } else {
      DistinctMembers(s[..|s| - 1]);
    }
  }

  /** As many different indexes as the count, all below it, leave none out: the closing loop never refuses. */
  lemma NoneMissing(indexes: seq<nat>)
    requires Distinct(indexes) && forall i :: 0 <= i < |indexes| ==> indexes[i] < |indexes|
    ensures forall k :: 0 <= k < |indexes| ==> k in indexes
  {
    DistinctMembers(indexes);
    forall k | 0 <= k < |indexes|
      ensures k in indexes
    {
      if k !in indexes {
        Fewer(Members(indexes), Below(|indexes|), k);
      }
    }
  }

  lemma Fewer(part: set<nat>, whole: set<nat>, missing: nat)
    requires part <= whole && missing in whole && missing !in part
    ensures |part| < |whole|
  {
    assert whole == part + (whole - part);
  }

  predicate DistinctDids(subs: seq<SubAccount>) {
    forall i, j :: 0 <= i < j < |subs| && NormalizeSpace(subs[i].did) == NormalizeSpace(subs[j].did) ==>
      NormalizeSpace(subs[i].did) == ""
  }

  /** The name a sub-account ends up with, its number counted from one when it has none. */
  predicate Named(s: SubAccount, name: string) {
    if NormalizeSpace(s.name) != "" then name == NormalizeSpace(s.name)
    else s.index + 1 < 0x1_0000_0000 ==> name == "Account " + Decimal(s.index + 1)
  }

  lemma SubsNormalized(subs: seq<SubAccount>)
    ensures forall i :: 0 <= i < |subs| ==>
              var s := NormalizeSubs(subs)[i];
              s.index == subs[i].index && Named(subs[i], s.name) && s.did == NormalizeSpace(subs[i].did)
  {
    hide NormalizeSpace, Decimal;
  }

  lemma SubsValid(subs: seq<SubAccount>)
    ensures ValidSubs(NormalizeSubs(subs), |subs|) <==> Numbered(subs, |subs|) && DistinctDids(subs)
  {
    hide NormalizeSpace, Decimal, NormalizeSubs, Named;
    SubsNormalized(subs);
    var indexes := Indexes(NormalizeSubs(subs));
    assert forall i :: 0 <= i < |subs| ==> indexes[i] == subs[i].index;
    if Numbered(subs, |subs|) {
      NoneMissing(indexes);
    }
  }

  /** A wallet is accepted exactly with a name, a valid mnemonic and as many accounts as it says, numbered from zero. */
  lemma WalletNormalized(c: Suite, w: WalletBackup)
    ensures var r := NormalizeWallet(c, w);
            && (r.Ok? <==>
                  && NormalizeSpace(w.name) != "" && c.mnemonicValid(NormalizeSpace(w.mnemonic))
                  && 0 < w.accountCount == |w.subAccounts|
                  && Numbered(w.subAccounts, w.accountCount) && DistinctDids(w.subAccounts))
            && (r.Err? ==> r.error == InvalidBackup)
            && (r.Ok? ==>
                  && r.value.name == NormalizeSpace(w.name) && r.value.mnemonic == NormalizeSpace(w.mnemonic)
                  && r.value.accountCount == w.accountCount && |r.value.subAccounts| == |w.subAccounts|
                  && forall i :: 0 <= i < |w.subAccounts| ==>
                       var s := r.value.subAccounts[i];
                       && s.index == w.subAccounts[i].index && Named(w.subAccounts[i], s.name)
                       && s.did == NormalizeSpace(w.subAccounts[i].did))
  {
    hide NormalizeSpace, ValidSubs, Numbered, DistinctDids, Named;
    SubsNormalized(w.subAccounts);
    SubsValid(w.subAccounts);
  }

  lemma {:induction false} WalletsNormalized(c: Suite, ws: seq<WalletBackup>)
    ensures var r := NormalizeWallets(c, ws);
            && (r.Ok? <==> forall i :: 0 <= i < |ws| ==> NormalizeWallet(c, ws[i]).Ok?)
            && (r.Ok? ==> forall i :: 0 <= i < |ws| ==> r.value[i] == NormalizeWallet(c, ws[i]).value)
            && (r.Err? ==> r.error == InvalidBackup)
  {
    hide NormalizeWallet;
    if ws == [] {
    } else {
      WalletsNormalized(c, ws[1..]);
      assert NormalizeWallet(c, ws[0]).Err? ==> NormalizeWallet(c, ws[0]).error == InvalidBackup by {
        WalletNormalized(c, ws[0]);
      }
      assert forall i :: 0 < i < |ws| ==> ws[1..][i - 1] == ws[i];
    }
  }

  /**
   * A backup is accepted exactly when it has wallets, each of them is, and no two end up with one name; the
   * result is the wallets' normal forms in order.
   */
  lemma BackupNormalized(c: Suite, b: Backup)
    ensures var r := NormalizeBackup(c, b);
            && (r.Ok? <==>
                  && b.version == 1 && b.wallets != []
                  && (forall i :: 0 <= i < |b.wallets| ==> NormalizeWallet(c, b.wallets[i]).Ok?)
                  && (forall i, j :: 0 <= i < j < |b.wallets| ==>
                        NormalizeSpace(b.wallets[i].name) != NormalizeSpace(b.wallets[j].name)))
            && (r.Err? ==> r.error == InvalidBackup)
            && (r.Ok? ==>
                  && r.value.version == 1 && |r.value.wallets| == |b.wallets|
                  && forall i :: 0 <= i < |b.wallets| ==> r.value.wallets[i] == NormalizeWallet(c, b.wallets[i]).value)
  {
    hide NormalizeSpace, NormalizeWallet;
    WalletsNormalized(c, b.wallets);
    forall i | 0 <= i < |b.wallets| && NormalizeWallet(c, b.wallets[i]).Ok?
      ensures NormalizeWallet(c, b.wallets[i]).value.name == NormalizeSpace(b.wallets[i].name)
    {
      WalletNormalized(c, b.wallets[i]);
    }
    var wallets := NormalizeWallets(c, b.wallets);
    if wallets.Ok? {
      var names := Names(wallets.value);
      assert forall i :: 0 <= i < |names| ==> names[i] == NormalizeSpace(b.wallets[i].name);
    }
  }

  // ---- Normalising is idempotent ----

  lemma NameWordClean()
    ensures Clean("Account")
  {
  }

  lemma DigitsClean(s: string)
    requires s != "" && forall i :: 0 <= i < |s| ==> '0' <= s[i] <= '9'
    ensures Clean(s)
  {
  }

  lemma NormalizedNameClean(index: nat)
    ensures var name := "Account " + Decimal(index); NormalizeSpace(name) == name
  {
    hide NormalizeSpace, Decimal, IsSpace;
    var ws := ["Account", Decimal(index)];
    assert ws[1..] == [Decimal(index)] && Joined(ws[1..]) == Decimal(index);
    assert Joined(ws) == "Account" + " " + Decimal(index) == "Account " + Decimal(index);
    assert Clean("Account") by { NameWordClean(); }
    assert Clean(Decimal(index)) by { DigitsClean(Decimal(index)); }
    NormalizeClean(ws);
  }

  lemma NormalizeSubIdempotent(s: SubAccount)
    ensures NormalizeSub(NormalizeSub(s)) == NormalizeSub(s)
  {
    hide NormalizeSpace, Decimal;
    NormalizeSpaceIdempotent(s.name);
    NormalizeSpaceIdempotent(s.did);
    NormalizedNameClean((s.index + 1) % 0x1_0000_0000);
  }

  lemma NormalizeSubsIdempotent(s: seq<SubAccount>)
    ensures NormalizeSubs(NormalizeSubs(s)) == NormalizeSubs(s)
  {
    forall i | 0 <= i < |s|
      ensures NormalizeSub(NormalizeSub(s[i])) == NormalizeSub(s[i])
    {
      NormalizeSubIdempotent(s[i]);
    }
  }

  lemma NormalizeWalletIdempotent(c: Suite, w: WalletBackup)
    requires NormalizeWallet(c, w).Ok?
    ensures NormalizeWallet(c, NormalizeWallet(c, w).value) == NormalizeWallet(c, w)
  {
    NormalizeSpaceIdempotent(w.name);
    NormalizeSpaceIdempotent(w.mnemonic);
    NormalizeSubsIdempotent(w.subAccounts);
  }

  lemma {:induction false} NormalizeWalletsIdempotent(c: Suite, ws: seq<WalletBackup>)
    requires NormalizeWallets(c, ws).Ok?
    ensures NormalizeWallets(c, NormalizeWallets(c, ws).value) == NormalizeWallets(c, ws)
  {
    if ws == [] {
    } else {
      NormalizeWalletIdempotent(c, ws[0]);
      NormalizeWalletsIdempotent(c, ws[1..]);
      var r := NormalizeWallets(c, ws).value;
      assert r[1..] == NormalizeWallets(c, ws[1..]).value;
    }
  }

  /** A normalised backup is its own normal form, whichever mnemonics are valid. */
  lemma NormalizeBackupIdempotent(c: Suite, b: Backup)
    requires NormalizeBackup(c, b).Ok?
    ensures NormalizeBackup(c, NormalizeBackup(c, b).value) == NormalizeBackup(c, b)
  {
    NormalizeWalletsIdempotent(c, b.wallets);
  }

  // ---- Validators ----

  function ValidateLocator(l: Locator): Outcome<()> {
    if l.version != VERSION || !ValidHex(l.accountID, 64) then Err(InvalidAccountID)
    else if !ValidHex(l.packageID, 32) then Err(InvalidPackageID)
    else if l.recoveryMode != MODE_2OF2 && l.recoveryMode != MODE_2OF3 then Err(InvalidRecoveryPackage)
    else Ok(())
  }

  /** Version one, lower-case hex ids of 32 and 16 bytes, and one of the two modes. */
  predicate Locates(l: Locator) {
    && l.version == 1 && l.recoveryMode in {"2of2", "2of3"}
    && |l.accountID| == 64 && (forall i :: 0 <= i < 64 ==> IsHexDigit(l.accountID[i]))
    && |l.packageID| == 32 && (forall i :: 0 <= i < 32 ==> IsHexDigit(l.packageID[i]))
  }

  lemma LocatorValidExactly(l: Locator)
    ensures ValidateLocator(l).Ok? <==> Locates(l)
  {
  }

  predicate ValidBlob(b: EncryptedBlob) { b.algorithm == "aes-256-gcm" && b.nonce != "" && b.ciphertext != "" }

  function ValidateEnvelope(e: Envelope): Outcome<()> {
    if e.version != VERSION then Err(InvalidRecoveryPackage)
    else
      var _ :- ValidateLocator(e.locator);
      if ValidBlob(e.encryptedBackup) then Ok(()) else Err(InvalidRecoveryPackage)
  }

  function ShareTotal(mode: string): nat { if mode == MODE_2OF3 then 3 else 2 }

  function ValidateManifest(m: Manifest, l: Locator): Outcome<()> {
    if m.version != VERSION || m.locator != l || m.threshold != 2 || !ValidHex(m.envelopeHash, 64) then
      Err(InvalidRecoveryPackage)
    else if m.total != ShareTotal(l.recoveryMode) then Err(InvalidRecoveryPackage)
    else Ok(())
  }

  function HashEnvelope(c: Suite, e: Envelope): Outcome<string> {
    var _ :- ValidateEnvelope(e);
    Ok(c.envelopeDigest(e))
  }

  predicate ValidCapsule(g: GuardianCapsule) {
    && g.version == VERSION && ValidHex(g.packageID, 32) && ValidHex(g.shareID, 16)
    && g.algorithm == "x25519-aes-256-gcm"
    && g.ephemeralPublicKey != "" && g.nonce != "" && g.ciphertext != ""
  }

  function HashGuardianCapsule(c: Suite, g: GuardianCapsule): Outcome<string> {
    if ValidCapsule(g) then Ok(c.capsuleDigest(g)) else Err(InvalidRecoveryPackage)
  }
}
