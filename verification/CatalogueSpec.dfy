// The wallet catalogue of app/store/wallet.ts over app/lib/walletStorage.ts, as a transition function:
// a reactive list beside the stored one, and the active wallet and account.

module CatalogueSpec {
  import Text

  datatype Account = Account(index: int, name: string, address: string, pubKey: string)

  datatype Wallet = Wallet(id: string, name: string, accounts: seq<Account>)

  /** What the core's address and key lookups gave; Missing when either came back empty. */
  datatype Lookup = Found(address: string, pubKey: string) | Missing

  datatype Selection = Selection(walletId: string, accountIndex: int, hasWallet: bool)

  /** The reactive refs and, behind them, the stored values. */
  datatype Catalogue = Catalogue(
    wallets: seq<Wallet>, active: Selection, storedWallets: seq<Wallet>, storedActive: Selection)

  const NOTHING := Selection("", 0, false)
  const EMPTY := Catalogue([], NOTHING, [], NOTHING)

  datatype Event =
    | Create(id: string, lookup: Lookup)
    | Import(id: string, lookup: Lookup)
    | AddAccount(name: string, index: int, lookup: Lookup)
    | SwitchToAccount(index: int, lookup: Lookup)
    | SwitchWallet(id: string, lookup: Lookup)
    | DeleteWallet(id: string, lookup: Lookup)
    | DeleteAccount(index: int, lookup: Lookup)
    | RenameAccount(index: int, name: string)
    | RenameWallet(id: string, name: string)

  /** Position of the first wallet with the id, or the length of the list. */
  function FindWallet(wallets: seq<Wallet>, id: string): (k: nat)
    ensures k <= |wallets| && (k < |wallets| ==> wallets[k].id == id)
    ensures forall i :: 0 <= i < k ==> wallets[i].id != id
  {
    if wallets == [] || wallets[0].id == id then 0 else 1 + FindWallet(wallets[1..], id)
  }

  function FindAccount(accounts: seq<Account>, index: int): (k: nat)
    ensures k <= |accounts| && (k < |accounts| ==> accounts[k].index == index)
    ensures forall i :: 0 <= i < k ==> accounts[i].index != index
  {
    if accounts == [] || accounts[0].index == index then 0 else 1 + FindAccount(accounts[1..], index)
  }

  predicate Listed(wallets: seq<Wallet>, id: string) { FindWallet(wallets, id) < |wallets| }

  predicate HasAccount(accounts: seq<Account>, index: int) { FindAccount(accounts, index) < |accounts| }

  /** The accounts `wallet.value` shows for an id; none when it is not listed. */
  function AccountsOf(wallets: seq<Wallet>, id: string): seq<Account> {
    var k := FindWallet(wallets, id);
    if k < |wallets| then wallets[k].accounts else []
  }

  function WithoutAt<T>(items: seq<T>, k: nat): seq<T>
    requires k < |items|
  {
    items[..k] + items[k + 1..]
  }

  function WithAccounts(wallets: seq<Wallet>, id: string, accounts: seq<Account>): seq<Wallet> {
    var k := FindWallet(wallets, id);
    if k < |wallets| then wallets[k := wallets[k].(accounts := accounts)] else wallets
  }

  /** setValue('wallets', …): stored first, then the subscription copies it into the reactive list. */
  function SetWallets(c: Catalogue, wallets: seq<Wallet>): Catalogue {
    c.(wallets := wallets, storedWallets := wallets)
  }

  /** The single-value setters: stored and reactive value both change. */
  function Select(c: Catalogue, active: Selection): Catalogue { c.(active := active, storedActive := active) }

  function SetWalletId(c: Catalogue, id: string): Catalogue {
    c.(active := c.active.(walletId := id), storedActive := c.storedActive.(walletId := id))
  }

  function SetIndex(c: Catalogue, index: int): Catalogue {
    c.(active := c.active.(accountIndex := index), storedActive := c.storedActive.(accountIndex := index))
  }

  function NewWallet(id: string, before: nat, lookup: Lookup): Wallet
    requires lookup.Found?
  {
    Wallet(id, "Wallet " + Text.Decimal(before + 1), [Account(0, "Account 1", lookup.address, lookup.pubKey)])
  }

  function Entered(c: Catalogue, id: string): Catalogue { Select(c, Selection(id, 0, true)) }

  function Switched(c: Catalogue, index: int, lookup: Lookup): Catalogue {
    if lookup.Found? then SetIndex(c, index) else c
  }

  function NextPosition(deleted: nat): nat { if deleted > 0 then deleted - 1 else 0 }

  function Next(c: Catalogue, event: Event): Catalogue {
    match event
    case Create(id, lookup) =>
      var e := Entered(c, id);
      if lookup.Found? then SetWallets(e, c.storedWallets + [NewWallet(id, |c.storedWallets|, lookup)]) else e
    case Import(id, lookup) =>
      var e := Entered(c, id);
      SetWallets(e, c.storedWallets + if lookup.Found? then [NewWallet(id, |c.storedWallets|, lookup)] else [])
    case AddAccount(name, index, lookup) =>
      if lookup.Missing? then c
      else
        var accounts :=
              AccountsOf(c.storedWallets, c.active.walletId) + [Account(index, name, lookup.address, lookup.pubKey)];
        SetIndex(SetWallets(c, WithAccounts(c.storedWallets, c.active.walletId, accounts)), index)
    case SwitchToAccount(index, lookup) => Switched(c, index, lookup)
    case SwitchWallet(id, lookup) =>
      var accounts := AccountsOf(c.wallets, id);
      Switched(SetWalletId(c, id), if accounts == [] then 0 else accounts[0].index, lookup)
    case DeleteWallet(id, lookup) =>
      var k := FindWallet(c.wallets, id);
      if k == |c.wallets| then c
      else
        var rest := WithoutAt(c.wallets, k);
        if rest == [] then EMPTY
        else if id != c.active.walletId then SetWallets(c, rest)
        else
          var next := rest[NextPosition(k)];
          if next.accounts == [] then SetWallets(c, rest)
          else Switched(SetWalletId(SetWallets(c, rest), next.id), next.accounts[0].index, lookup)
    case DeleteAccount(index, lookup) =>
      var accounts := AccountsOf(c.wallets, c.active.walletId);
      var k := FindAccount(accounts, index);
      if k == 0 || k == |accounts| then c
      else
        var fewer := WithAccounts(c.wallets, c.active.walletId, WithoutAt(accounts, k));
        Switched(SetWallets(c, fewer), accounts[k - 1].index, lookup)
    case RenameAccount(index, name) =>
      var accounts := AccountsOf(c.wallets, c.active.walletId);
      var k := FindAccount(accounts, index);
      SetWallets(c, if k == |accounts| then c.wallets
                    else WithAccounts(c.wallets, c.active.walletId, accounts[k := accounts[k].(name := name)]))
    case RenameWallet(id, name) =>
      var k := FindWallet(c.wallets, id);
      if k == |c.wallets| then c else SetWallets(c, c.wallets[k := c.wallets[k].(name := name)])
  }

  function Run(start: Catalogue, events: seq<Event>): Catalogue {
    if events == [] then start else Next(Run(start, events[..|events| - 1]), events[|events| - 1])
  }

  // ---- The invariant ----

  predicate Populated(wallets: seq<Wallet>) {
    forall i :: 0 <= i < |wallets| ==> wallets[i].accounts != [] && wallets[i].accounts[0].index == 0
  }

  /**
   * Reactive and stored values agree, every wallet keeps its account 0, hasWallet says whether there is
   * a wallet, and then the selection names an existing wallet and account.
   */
  predicate Invariant(c: Catalogue) {
    && c.wallets == c.storedWallets && c.active == c.storedActive
    && Populated(c.wallets)
    && (c.active.hasWallet <==> c.wallets != [])
    && (c.wallets != [] ==> Listed(c.wallets, c.active.walletId)
                            && HasAccount(AccountsOf(c.wallets, c.active.walletId), c.active.accountIndex))
  }

  /** What a caller can check beforehand to know that the operation leaves the selection on something that exists. */
  predicate Lands(c: Catalogue, event: Event) {
    var accounts := AccountsOf(c.wallets, c.active.walletId);
    match event
    case Create(id, lookup) => lookup.Found? || Listed(c.wallets, id)
    case Import(id, lookup) => lookup.Found? || Listed(c.wallets, id)
    case AddAccount(_, _, lookup) => true
    case SwitchToAccount(index, lookup) => lookup.Found? && c.wallets != [] ==> HasAccount(accounts, index)
    case SwitchWallet(id, lookup) =>
      c.wallets != [] ==>
          Listed(c.wallets, id) && (lookup.Found? || HasAccount(AccountsOf(c.wallets, id), c.active.accountIndex))
    case DeleteWallet(id, lookup) =>
      var k := FindWallet(c.wallets, id);
      k < |c.wallets| && |c.wallets| > 1 && id == c.active.walletId && lookup.Missing? ==>
        var rest := WithoutAt(c.wallets, k);
        HasAccount(AccountsOf(rest, rest[NextPosition(k)].id), c.active.accountIndex)
    case DeleteAccount(index, lookup) =>
      var k := FindAccount(accounts, index);
      0 < k < |accounts| && lookup.Missing? ==> HasAccount(WithoutAt(accounts, k), c.active.accountIndex)
    case _ => true
  }
}
