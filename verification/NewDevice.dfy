// RestoreOnNewDevice of sdk/account/manager.go: recovery with two callbacks.

module NewDevice {
  import opened Basics
  import opened AccountTypes
  import opened Hkdf
  import opened Manager

  datatype WalletSummary = WalletSummary(name: string, accountCount: nat, dids: seq<string>)
  datatype Summary = Summary(accountID: string, packageID: string, recoveryMode: string, wallets: seq<WalletSummary>)

  function SummarizeWallet(w: WalletBackup): WalletSummary {
    WalletSummary(w.name, w.accountCount,
                  seq(|w.subAccounts|, i requires 0 <= i < |w.subAccounts| => w.subAccounts[i].did))
  }

  function Summarize(l: Locator, b: Backup): Summary {
    Summary(l.accountID, l.packageID, l.recoveryMode,
            seq(|b.wallets|, i requires 0 <= i < |b.wallets| => SummarizeWallet(b.wallets[i])))
  }

  /** What the user is asked to confirm: the package, and of each wallet its name, account count and DIDs. */
  lemma SummaryShows(l: Locator, b: Backup)
    ensures var s := Summarize(l, b);
            && s.accountID == l.accountID && s.packageID == l.packageID && s.recoveryMode == l.recoveryMode
            && |s.wallets| == |b.wallets|
            && forall i :: 0 <= i < |b.wallets| ==>
                 && s.wallets[i].name == b.wallets[i].name && s.wallets[i].accountCount == b.wallets[i].accountCount
                 && |s.wallets[i].dids| == |b.wallets[i].subAccounts|
                 && forall j :: 0 <= j < |b.wallets[i].subAccounts| ==>
                      s.wallets[i].dids[j] == b.wallets[i].subAccounts[j].did
  {
  }

  datatype Call = Confirm(summary: Summary) | Persist(secret: Bytes, backup: Backup)

  /** The caller's callbacks: what they will answer, and the calls they saw. */
  class Callbacks {
    const confirms: Option<Outcome<bool>>  // None: no callback given
    const persists: Option<Outcome<()>>
    var calls: seq<Call>

    constructor (confirms: Option<Outcome<bool>>, persists: Option<Outcome<()>>)
      ensures this.confirms == confirms && this.persists == persists && calls == []
    {
      this.confirms, this.persists := confirms, persists;
      calls := [];
    }

    method OnConfirm(summary: Summary) returns (r: Outcome<bool>)
      requires confirms.Some?
      modifies this
      ensures r == confirms.value && calls == old(calls) + [Confirm(summary)]
    {
      calls := calls + [Confirm(summary)];
      r := confirms.value;
    }

    method OnPersist(secret: array<byte>, backup: Backup) returns (r: Outcome<()>)
      requires persists.Some?
      modifies this
      ensures r == persists.value && calls == old(calls) + [Persist(secret[..], backup)]
    {
      calls := calls + [Persist(secret[..], backup)];
      r := persists.value;
    }
  }

  predicate Asked(c: Suite, e: Envelope, shares: seq<RecoveryShare>, callbacks: Callbacks) {
    RecoverAccount(c, e, shares).Ok? && callbacks.confirms.Some? && callbacks.persists.Some?
  }

  predicate Granted(c: Suite, e: Envelope, shares: seq<RecoveryShare>, callbacks: Callbacks) {
    Asked(c, e, shares, callbacks) && callbacks.confirms == Some(Ok(true))
  }

  function CallsMade(c: Suite, e: Envelope, shares: seq<RecoveryShare>, callbacks: Callbacks): seq<Call> {
    if !Asked(c, e, shares, callbacks) then []
    else
      var recovered := RecoverAccount(c, e, shares).value;
      var confirm := Confirm(Summarize(e.locator, recovered.backup));
      if callbacks.confirms == Some(Ok(true)) then [confirm, Persist(recovered.secret, recovered.backup)] else [confirm]
  }

  /** The result: the recovery's error, the callbacks' errors in order, or the summary. */
  function Restored(c: Suite, e: Envelope, shares: seq<RecoveryShare>, callbacks: Callbacks): Outcome<Summary> {
    var recovered :- RecoverAccount(c, e, shares);
    if callbacks.confirms.None? || callbacks.persists.None? then Err(CallbacksRequired)
    else
      var granted :- callbacks.confirms.value;
      if !granted then Err(NotConfirmed)
      else
        var _ :- callbacks.persists.value;
        Ok(Summarize(e.locator, recovered.backup))
  }

  /**
   * The user is asked once, about the recovered backup, when both callbacks are there; persisting comes second,
   * only after a yes, and sees the recovered secret and backup.
   */
  lemma CallsInOrder(c: Suite, e: Envelope, shares: seq<RecoveryShare>, callbacks: Callbacks)
    ensures var calls := CallsMade(c, e, shares, callbacks);
            && (calls != [] <==> Asked(c, e, shares, callbacks))
            && (calls != [] ==>
                  calls[0] == Confirm(Summarize(e.locator, RecoverAccount(c, e, shares).value.backup)))
            && (|calls| == 2 <==> Granted(c, e, shares, callbacks)) && |calls| <= 2
            && (|calls| == 2 ==>
                  var recovered := RecoverAccount(c, e, shares).value;
                  calls[1] == Persist(recovered.secret, recovered.backup))
  {
    hide RecoverAccount;
  }

  /** What a restore that does not succeed reports, first come first served. */
  lemma FailsWith(c: Suite, e: Envelope, shares: seq<RecoveryShare>, callbacks: Callbacks)
    ensures var r := Restored(c, e, shares, callbacks);
            && (RecoverAccount(c, e, shares).Err? ==> r == Err(RecoverAccount(c, e, shares).error))
            && (RecoverAccount(c, e, shares).Ok? && !Asked(c, e, shares, callbacks) ==> r == Err(CallbacksRequired))
            && (Asked(c, e, shares, callbacks) && callbacks.confirms.value == Ok(false) ==> r == Err(NotConfirmed))
            && (Asked(c, e, shares, callbacks) && callbacks.confirms.value.Err? ==>
                  r == Err(callbacks.confirms.value.error))
            && (Granted(c, e, shares, callbacks) && callbacks.persists.value.Err? ==>
                  r == Err(callbacks.persists.value.error))
            && (r.Ok? ==> r.value == Summarize(e.locator, RecoverAccount(c, e, shares).value.backup))
  {
    hide RecoverAccount;
  }

  /**
   * Persisting happens once, after an accepting confirmation, and sees the recovered secret. Every buffer
   * that held the secret is wiped on every path, the one of a failed decryption included.
   */
  method RestoreOnNewDevice(c: Suite, e: Envelope, shares: seq<RecoveryShare>, callbacks: Callbacks)
    returns (r: Outcome<Summary>, ghost buffers: seq<array<byte>>)
    modifies callbacks
    ensures r == Restored(c, e, shares, callbacks)
    ensures r.Ok? <==> Granted(c, e, shares, callbacks) && callbacks.persists.value.Ok?
    ensures callbacks.calls == old(callbacks.calls) + CallsMade(c, e, shares, callbacks)
    ensures |buffers| == if Granted(c, e, shares, callbacks) then 2 else if Combines(c, e, shares) then 1 else 0
    ensures forall b :: b in buffers ==>
              fresh(b) && b.Length == ACCOUNT_SECRET_SIZE && forall i :: 0 <= i < b.Length ==> b[i] == 0
  {
    hide RecoverAccount, Combines;
    var recovered, secret := RecoverWithBuffer(c, e, shares);
    RecoversCombined(c, e, shares);
    buffers := if Combines(c, e, shares) then [secret] else [];
    if recovered.Err? {
      return Err(recovered.error), buffers;
    }
    var backup := recovered.value;
    ghost var plain := secret[..];
    var summary := Summarize(e.locator, backup);
    if callbacks.confirms.None? || callbacks.persists.None? {
      r := Err(CallbacksRequired);
    } else {
      var ok := callbacks.OnConfirm(summary);
      if ok.Err? {
        r := Err(ok.error);
      } else if !ok.value {
        r := Err(NotConfirmed);
      } else {
        var copy := Fill(secret[..]);
        buffers := [secret, copy];
        var done := callbacks.OnPersist(copy, backup);
        assert callbacks.calls == old(callbacks.calls) + [Confirm(summary), Persist(plain, backup)];
        r := if done.Err? then Err(done.error) else Ok(summary);
        Zero(copy);
      }
    }
    Zero(secret);
  }

  lemma RecoversCombined(c: Suite, e: Envelope, shares: seq<RecoveryShare>)
    ensures RecoverAccount(c, e, shares).Ok? ==> Combines(c, e, shares)
  {
  }
}
