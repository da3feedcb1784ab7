// Agreement of the reactive and the stored wallet list, and validity of the active selection, over
// every run of wallet-store operations; and the store itself.

module Catalogue {
  import opened CatalogueSpec
  import Text

  lemma {:induction false} FindWalletSnoc(wallets: seq<Wallet>, w: Wallet, id: string)
    ensures FindWallet(wallets + [w], id) ==
              if Listed(wallets, id) then FindWallet(wallets, id) else if w.id == id then |wallets| else |wallets| + 1
  {
    if wallets == [] {
      assert [w][1..] == [];
    } else {
      assert (wallets + [w])[1..] == wallets[1..] + [w];
      FindWalletSnoc(wallets[1..], w, id);
    }
  }

  /** The first position with a property determines FindWallet. */
  lemma FoundAt(wallets: seq<Wallet>, id: string, k: nat)
    requires k < |wallets| && wallets[k].id == id && forall i :: 0 <= i < k ==> wallets[i].id != id
    ensures FindWallet(wallets, id) == k
  {
    assert FindWallet(wallets, id) <= k;
  }

  lemma HasAccountAt(accounts: seq<Account>, k: nat)
    requires k < |accounts|
    ensures HasAccount(accounts, accounts[k].index)
  {
  }

  lemma CreateKeeps(c: Catalogue, event: Event)
    requires Invariant(c) && (event.Create? || event.Import?)
    ensures Invariant(Next(c, event)) <==> Lands(c, event)
  {
    hide FindWallet, FindAccount, NewWallet;
    var v := Next(c, event);
    if event.lookup.Found? {
      var w := v.wallets[|c.wallets|];
      assert w.id == event.id && |w.accounts| == 1 && w.accounts[0].index == 0 by {
        NewWalletIs(event.id, |c.wallets|, event.lookup);
      }
      FindWalletSnoc(c.wallets, w, event.id);
      HasAccountAt(AccountsOf(v.wallets, event.id), 0);
    } else {
      assert v.wallets == c.wallets;
      if Listed(c.wallets, event.id) {
        HasAccountAt(AccountsOf(c.wallets, event.id), 0);
      }
    }
  }

  lemma NewWalletIs(id: string, before: nat, lookup: Lookup)
    requires lookup.Found?
    ensures var w := NewWallet(id, before, lookup); w.id == id && |w.accounts| == 1 && w.accounts[0].index == 0
  {
    hide Text.Decimal;
  }

  /** Replacing the active wallet's accounts leaves every wallet findable where it was. */
  lemma WithAccountsFinds(wallets: seq<Wallet>, id: string, accounts: seq<Account>)
    requires Listed(wallets, id)
    ensures var v := WithAccounts(wallets, id, accounts);
            Listed(v, id) && AccountsOf(v, id) == accounts && |v| == |wallets|
  {
    var k := FindWallet(wallets, id);
    var v := WithAccounts(wallets, id, accounts);
    assert forall i :: 0 <= i < k ==> v[i].id == wallets[i].id;
    FoundAt(v, id, k);
  }

  lemma AddKeeps(c: Catalogue, event: Event)
    requires Invariant(c) && event.AddAccount?
    ensures Invariant(Next(c, event))
  {
    hide FindWallet, FindAccount;
    if event.lookup.Found? && c.wallets != [] {
      var accounts := AccountsOf(c.wallets, c.active.walletId);
      var more := accounts + [Account(event.index, event.name, event.lookup.address, event.lookup.pubKey)];
      WithAccountsFinds(c.wallets, c.active.walletId, more);
      HasAccountAt(more, |accounts|);
    }
  }

  lemma SwitchKeeps(c: Catalogue, event: Event)
    requires Invariant(c) && (event.SwitchToAccount? || event.SwitchWallet?)
    ensures Invariant(Next(c, event)) <==> Lands(c, event)
  {
    hide FindWallet, FindAccount;
    if event.SwitchWallet? && Listed(c.wallets, event.id) {
      HasAccountAt(AccountsOf(c.wallets, event.id), 0);
    }
  }

  lemma RenameKeeps(c: Catalogue, event: Event)
    requires Invariant(c) && (event.RenameAccount? || event.RenameWallet?)
    ensures Invariant(Next(c, event))
  {
    hide FindWallet, FindAccount;
    if event.RenameAccount? {
      var accounts := AccountsOf(c.wallets, c.active.walletId);
      var k := FindAccount(accounts, event.index);
      if k < |accounts| {
        var renamed := accounts[k := accounts[k].(name := event.name)];
        WithAccountsFinds(c.wallets, c.active.walletId, renamed);
        var j := FindAccount(accounts, c.active.accountIndex);
        HasAccountAt(renamed, j);
      }
    } else {
      var k := FindWallet(c.wallets, event.id);
      if k < |c.wallets| {
        var v := Next(c, event).wallets;
        var j := FindWallet(c.wallets, c.active.walletId);
        assert forall i :: 0 <= i < |v| ==> v[i].id == c.wallets[i].id && v[i].accounts == c.wallets[i].accounts;
        FoundAt(v, c.active.walletId, j);
      }
    }
  }

  lemma DeleteAccountKeeps(c: Catalogue, event: Event)
    requires Invariant(c) && event.DeleteAccount?
    ensures Invariant(Next(c, event)) <==> Lands(c, event)
  {
    hide FindWallet, FindAccount;
    var accounts := AccountsOf(c.wallets, c.active.walletId);
    var k := FindAccount(accounts, event.index);
    if 0 < k < |accounts| {
      var rest := WithoutAt(accounts, k);
      WithAccountsFinds(c.wallets, c.active.walletId, rest);
      assert rest[k - 1] == accounts[k - 1] && rest[0] == accounts[0];
      HasAccountAt(rest, k - 1);
    }
  }

  /** Removing the first wallet with an id leaves the others findable, with the same accounts. */
  lemma WithoutOther(wallets: seq<Wallet>, k: nat, id: string)
    requires k < |wallets| && wallets[k].id != id && Listed(wallets, id)
    ensures Listed(WithoutAt(wallets, k), id) && AccountsOf(WithoutAt(wallets, k), id) == AccountsOf(wallets, id)
  {
    var j := FindWallet(wallets, id);
    var rest := WithoutAt(wallets, k);
    var p := if j < k then j else j - 1;
    assert forall i :: 0 <= i < |rest| ==> rest[i] == wallets[if i < k then i else i + 1];
    FoundAt(rest, id, p);
  }

  lemma DeleteWalletKeeps(c: Catalogue, event: Event)
    requires Invariant(c) && event.DeleteWallet?
    ensures Invariant(Next(c, event)) <==> Lands(c, event)
  {
    hide FindWallet, FindAccount, WithoutAt;
    var k := FindWallet(c.wallets, event.id);
    if k < |c.wallets| {
      var rest := WithoutAt(c.wallets, k);
      WithoutPopulated(c.wallets, k);
      if rest != [] {
        if event.id != c.active.walletId {
          WithoutOther(c.wallets, k, c.active.walletId);
        } else {
          var next := rest[NextPosition(k)];
          ListedAt(rest, NextPosition(k));
          HasAccountAt(AccountsOf(rest, next.id), 0);
        }
      }
    }
  }

  lemma WithoutPopulated(wallets: seq<Wallet>, k: nat)
    requires k < |wallets| && Populated(wallets)
    ensures |WithoutAt(wallets, k)| == |wallets| - 1 && Populated(WithoutAt(wallets, k))
  {
  }

  lemma ListedAt(wallets: seq<Wallet>, k: nat)
    requires k < |wallets|
    ensures Listed(wallets, wallets[k].id)
  {
  }

  /** An operation keeps the invariant exactly when its guard, checkable before the call, holds. */
  lemma StepExactly(c: Catalogue, event: Event)
    requires Invariant(c)
    ensures Invariant(Next(c, event)) <==> Lands(c, event)
  {
    hide Invariant, Next;
    match event
    case Create(_, _) => CreateKeeps(c, event);
    case Import(_, _) => CreateKeeps(c, event);
    case AddAccount(_, _, _) => AddKeeps(c, event);
    case SwitchToAccount(_, _) => SwitchKeeps(c, event);
    case SwitchWallet(_, _) => SwitchKeeps(c, event);
    case DeleteWallet(_, _) => DeleteWalletKeeps(c, event);
    case DeleteAccount(_, _) => DeleteAccountKeeps(c, event);
    case RenameAccount(_, _) => RenameKeeps(c, event);
    case RenameWallet(_, _) => RenameKeeps(c, event);
  }

  /** A known wallet or account, and lookups that came back. */
  predicate Ordinary(c: Catalogue, event: Event) {
    match event
    case SwitchToAccount(index, lookup) => lookup.Found? && HasAccount(AccountsOf(c.wallets, c.active.walletId), index)
    case SwitchWallet(id, lookup) => lookup.Found? && Listed(c.wallets, id)
    case RenameAccount(_, _) => true
    case RenameWallet(_, _) => true
    case _ => event.lookup.Found?
  }

  /** From any start that meets it, operations on known ids with successful lookups always keep the invariant. */
  lemma {:induction false} RunKeeps(start: Catalogue, events: seq<Event>)
    requires Invariant(start)
    requires forall i :: 0 <= i < |events| ==> Ordinary(Run(start, events[..i]), events[i])
    ensures Invariant(Run(start, events))
    decreases |events|
  {
    hide Invariant, Next, Ordinary;
    if events == [] {
    } else {
      var n := |events| - 1;
      forall i | 0 <= i < n
        ensures Ordinary(Run(start, events[..n][..i]), events[..n][i])
      {
        assert events[..n][..i] == events[..i];
      }
      RunKeeps(start, events[..n]);
      OrdinaryLands(Run(start, events[..n]), events[n]);
      StepExactly(Run(start, events[..n]), events[n]);
    }
  }

  /** The empty catalogue is such a start. */
  lemma EmptyInvariant()
    ensures Invariant(EMPTY)
  {
  }

  lemma OrdinaryLands(c: Catalogue, event: Event)
    requires Ordinary(c, event)
    ensures Lands(c, event)
  {
  }

  /** A creation whose lookups fail, from an empty catalogue: hasWallet is set and there is no wallet. */
  lemma CreateWithoutLookup(id: string)
    ensures var c := Next(EMPTY, Create(id, Missing)); c.active.hasWallet && c.wallets == [] && c.active.walletId == id
  {
  }

  /** Deleting the active wallet always finds a wallet with an account to go to. */
  lemma NextWalletFound(c: Catalogue, id: string)
    requires Invariant(c) && Listed(c.wallets, id) && |c.wallets| > 1
    ensures var k := FindWallet(c.wallets, id); var rest := WithoutAt(c.wallets, k);
            NextPosition(k) < |rest| && rest[NextPosition(k)].accounts != []
  {
    hide FindWallet;
    var k := FindWallet(c.wallets, id);
    var rest := WithoutAt(c.wallets, k);
    assert forall i :: 0 <= i < |rest| ==> rest[i] == c.wallets[if i < k then i else i + 1];
  }

  // ---- What each operation does to the lists and the selection ----

  /** Every wallet but the one at position k is as it was, and that one keeps its id. */
  predicate OnlyAt(before: seq<Wallet>, after: seq<Wallet>, k: nat) {
    && k < |before| == |after| && after[k].id == before[k].id
    && forall i :: 0 <= i < |before| && i != k ==> after[i] == before[i]
  }

  /** A new wallet goes to the end, numbered from one, with one account at the looked-up address, and is selected. */
  lemma WalletAdded(c: Catalogue, id: string, lookup: Lookup, v: Catalogue)
    requires lookup.Found? && (v == Next(c, Create(id, lookup)) || v == Next(c, Import(id, lookup)))
    ensures var n := |c.storedWallets|;
            && v.wallets == v.storedWallets && |v.wallets| == n + 1 && v.wallets[..n] == c.storedWallets
            && v.wallets[n].id == id && v.wallets[n].name == "Wallet " + Text.Decimal(n + 1)
            && v.wallets[n].accounts == [Account(0, "Account 1", lookup.address, lookup.pubKey)]
            && v.active == v.storedActive == Selection(id, 0, true)
  {
    hide Text.Decimal;
  }

  /** A new account goes to the end of the active wallet, under its own index, name, address and key. */
  lemma AccountAdded(c: Catalogue, name: string, index: int, lookup: Lookup)
    requires Invariant(c) && c.wallets != [] && lookup.Found?
    ensures var v, k := Next(c, AddAccount(name, index, lookup)), FindWallet(c.wallets, c.active.walletId);
            && v.wallets == v.storedWallets && v.active == v.storedActive == c.active.(accountIndex := index)
            && OnlyAt(c.wallets, v.wallets, k) && v.wallets[k].name == c.wallets[k].name
            && v.wallets[k].accounts == c.wallets[k].accounts + [Account(index, name, lookup.address, lookup.pubKey)]
  {
    hide FindWallet, FindAccount;
  }

  /** Switching selects the account asked for, or the first one of the wallet asked for, and changes no list. */
  lemma SelectionMoved(c: Catalogue, id: string, index: int, lookup: Lookup)
    requires lookup.Found?
    ensures Next(c, SwitchToAccount(index, lookup)) ==
              c.(active := c.active.(accountIndex := index), storedActive := c.storedActive.(accountIndex := index))
    ensures var v := Next(c, SwitchWallet(id, lookup));
            && v.wallets == c.wallets && v.storedWallets == c.storedWallets
            && v.active.walletId == v.storedActive.walletId == id && v.active.hasWallet == c.active.hasWallet
            && forall k :: 0 <= k < |c.wallets| && c.wallets[k].id == id && c.wallets[k].accounts != []
                           && (forall i :: 0 <= i < k ==> c.wallets[i].id != id) ==>
                 v.active.accountIndex == c.wallets[k].accounts[0].index
  {
    forall k | 0 <= k < |c.wallets| && c.wallets[k].id == id && forall i :: 0 <= i < k ==> c.wallets[i].id != id
      ensures FindWallet(c.wallets, id) == k
    {
      FoundAt(c.wallets, id, k);
    }
  }

  /**
   * A deletion takes out that wallet alone. If it was the active one, its predecessor is selected, or its successor
   * when it was the first, with account 0 once its address is known.
   */
  lemma WalletDeleted(c: Catalogue, id: string, lookup: Lookup)
    requires Invariant(c) && Listed(c.wallets, id)
    ensures var v, k := Next(c, DeleteWallet(id, lookup)), FindWallet(c.wallets, id);
            if |c.wallets| == 1 then v == EMPTY
            else
              && v.wallets == v.storedWallets && |v.wallets| == |c.wallets| - 1
              && (forall i :: 0 <= i < |v.wallets| ==> v.wallets[i] == c.wallets[if i < k then i else i + 1])
              && v.active == v.storedActive && v.active.hasWallet == c.active.hasWallet
              && (id != c.active.walletId ==> v.active == c.active)
              && (id == c.active.walletId ==>
                    && v.active.walletId == c.wallets[if k > 0 then k - 1 else 1].id
                    && v.active.accountIndex == if lookup.Found? then 0 else c.active.accountIndex)
  {
    hide FindWallet, FindAccount, HasAccount, Populated;
    if |c.wallets| > 1 {
      var k := FindWallet(c.wallets, id);
      NextWalletFound(c, id);
      WithoutPopulated(c.wallets, k);
      assert WithoutAt(c.wallets, k)[NextPosition(k)].accounts[0].index == 0 by {
        PopulatedAt(WithoutAt(c.wallets, k), NextPosition(k));
      }
    }
  }

  lemma PopulatedAt(wallets: seq<Wallet>, k: nat)
    requires Populated(wallets) && k < |wallets|
    ensures wallets[k].accounts != [] && wallets[k].accounts[0].index == 0
  {
  }

  /** A deletion takes out that account of the active wallet alone and selects the one before it; never the first. */
  lemma AccountDeleted(c: Catalogue, index: int, lookup: Lookup)
    requires Invariant(c) && c.wallets != []
    ensures var w := FindWallet(c.wallets, c.active.walletId);
            var v, accounts := Next(c, DeleteAccount(index, lookup)), c.wallets[w].accounts;
            var k := FindAccount(accounts, index);
            if k == 0 || k == |accounts| then v == c
            else
              && OnlyAt(c.wallets, v.wallets, w) && v.wallets == v.storedWallets
              && v.wallets[w].name == c.wallets[w].name && |v.wallets[w].accounts| == |accounts| - 1
              && (forall i :: 0 <= i < |accounts| - 1 ==>
                    v.wallets[w].accounts[i] == accounts[if i < k then i else i + 1])
              && v.active == v.storedActive
              && v.active == (if lookup.Found? then c.active.(accountIndex := accounts[k - 1].index) else c.active)
  {
    hide FindWallet, FindAccount;
  }

  /** Renaming changes one name. */
  lemma OnlyRenamed(c: Catalogue, id: string, index: int, name: string)
    requires Invariant(c) && c.wallets != []
    ensures var w := FindWallet(c.wallets, c.active.walletId);
            var v, accounts := Next(c, RenameAccount(index, name)), c.wallets[w].accounts;
            var k := FindAccount(accounts, index);
            && v.active == v.storedActive == c.active && v.wallets == v.storedWallets
            && (k == |accounts| ==> v == c)
            && (k < |accounts| ==>
                  && OnlyAt(c.wallets, v.wallets, w) && v.wallets[w].name == c.wallets[w].name
                  && v.wallets[w].accounts == accounts[k := accounts[k].(name := name)])
    ensures var v, k := Next(c, RenameWallet(id, name)), FindWallet(c.wallets, id);
            && v.active == v.storedActive == c.active && v.wallets == v.storedWallets
            && (k == |c.wallets| ==> v == c)
            && (k < |c.wallets| ==>
                  && OnlyAt(c.wallets, v.wallets, k)
                  && v.wallets[k].name == name && v.wallets[k].accounts == c.wallets[k].accounts)
  {
    hide FindWallet, FindAccount;
  }

  // ---- The store itself ----

  datatype Deletion = Deleted | NotFound | NextNotFound

  class WalletStore {
    var wallets: seq<Wallet>
    var walletId: string
    var accountIndex: int
    var hasWallet: bool
    /** walletStorage's own copies of the same four values. */
    var storedWallets: seq<Wallet>
    var storedWalletId: string
    var storedAccountIndex: int
    var storedHasWallet: bool

    constructor ()
      ensures View() == EMPTY
    {
      wallets, walletId, accountIndex, hasWallet := [], "", 0, false;
      storedWallets, storedWalletId, storedAccountIndex, storedHasWallet := [], "", 0, false;
    }

    function View(): Catalogue
      reads this
    {
      CatalogueSpec.Catalogue(wallets, Selection(walletId, accountIndex, hasWallet),
                              storedWallets, Selection(storedWalletId, storedAccountIndex, storedHasWallet))
    }

    /** setValue('wallets', value) with the subscription it sets off. */
    method StoreWallets(value: seq<Wallet>)
      modifies this`wallets, this`storedWallets
      ensures wallets == storedWallets == value
    {
      storedWallets := value;
      wallets := value;
    }

    method SetWalletId(value: string)
      modifies this`walletId, this`storedWalletId
      ensures walletId == storedWalletId == value
    {
      storedWalletId := value;
      walletId := value;
    }

    method SetAccountIndex(value: int)
      modifies this`accountIndex, this`storedAccountIndex
      ensures accountIndex == storedAccountIndex == value
    {
      storedAccountIndex := value;
      accountIndex := value;
    }

    method SetHasWallet(value: bool)
      modifies this`hasWallet, this`storedHasWallet
      ensures hasWallet == storedHasWallet == value
    {
      storedHasWallet := value;
      hasWallet := value;
    }

    method CreateWallet(id: string, lookup: Lookup)
      modifies this
      ensures View() == Next(old(View()), Create(id, lookup))
    {
      SetWalletId(id);
      SetAccountIndex(0);
      SetHasWallet(true);
      if lookup.Found? {
        var list := storedWallets;
        list := list + [NewWallet(id, |list|, lookup)];
        wallets := list;
        StoreWallets(list);
      }
    }

    method ImportWallet(id: string, lookup: Lookup)
      modifies this
      ensures View() == Next(old(View()), Import(id, lookup))
    {
      SetWalletId(id);
      SetAccountIndex(0);
      SetHasWallet(true);
      var list := storedWallets;
      if lookup.Found? {
        list := list + [NewWallet(id, |list|, lookup)];
      }
      wallets := list;
      StoreWallets(list);
      assert lookup.Missing? ==> old(storedWallets) + [] == old(storedWallets);
    }

    method AddAccount(name: string, index: int, lookup: Lookup)
      modifies this
      ensures View() == Next(old(View()), Event.AddAccount(name, index, lookup))
    {
      if lookup.Found? {
        var list := storedWallets;
        var k := FindWallet(list, walletId);
        if k < |list| {
          var account := Account(index, name, lookup.address, lookup.pubKey);
          list := list[k := list[k].(accounts := list[k].accounts + [account])];
        }
        wallets := list;
        StoreWallets(list);
        SetAccountIndex(index);
      }
    }

    method SwitchToAccount(index: int, lookup: Lookup)
      modifies this`accountIndex, this`storedAccountIndex
      ensures View() == Next(old(View()), Event.SwitchToAccount(index, lookup))
    {
      if lookup.Found? {
        SetAccountIndex(index);
      }
    }

    method SwitchWallet(id: string, lookup: Lookup)
      modifies this
      ensures View() == Next(old(View()), Event.SwitchWallet(id, lookup))
    {
      var k := FindWallet(wallets, id);
      var first := if k < |wallets| && wallets[k].accounts != [] then wallets[k].accounts[0].index else 0;
      SetWalletId(id);
      SwitchToAccount(first, lookup);
    }

    /** Under the invariant the branch that finds no next wallet is never taken. */
    method DeleteWallet(id: string, lookup: Lookup) returns (outcome: Deletion)
      modifies this
      ensures View() == Next(old(View()), Event.DeleteWallet(id, lookup))
      ensures outcome == NotFound <==> !Listed(old(wallets), id)
      ensures Invariant(old(View())) ==> outcome != NextNotFound
    {
      hide FindWallet, FindAccount, Invariant, Switched;
      var k := FindWallet(wallets, id);
      if k == |wallets| {
        return NotFound;
      }
      if Invariant(View()) && |wallets| > 1 {
        NextWalletFound(View(), id);
      }
      var deletingActive := id == walletId;
      wallets := WithoutAt(wallets, k);
      if wallets == [] {
        ClearAll();
        return Deleted;
      }
      StoreWallets(wallets);
      if !deletingActive {
        return Deleted;
      }
      var moved := MoveTo(wallets[NextPosition(k)], lookup);
      return if moved then Deleted else NextNotFound;
    }

    method ClearAll()
      modifies this
      ensures View() == EMPTY
    {
      StoreWallets([]);
      SetHasWallet(false);
      SetWalletId("");
      SetAccountIndex(0);
    }

    method MoveTo(next: Wallet, lookup: Lookup) returns (moved: bool)
      modifies this`walletId, this`storedWalletId, this`accountIndex, this`storedAccountIndex
      ensures moved <==> next.accounts != []
      ensures View() == if next.accounts == [] then old(View())
                        else Switched(CatalogueSpec.SetWalletId(old(View()), next.id), next.accounts[0].index, lookup)
    {
      if next.accounts == [] {
        return false;
      }
      SetWalletId(next.id);
      SwitchToAccount(next.accounts[0].index, lookup);
      return true;
    }

    method DeleteAccount(index: int, lookup: Lookup)
      modifies this
      ensures View() == Next(old(View()), Event.DeleteAccount(index, lookup))
    {
      hide FindAccount;
      var w := FindWallet(wallets, walletId);
      if w == |wallets| {
        return;
      }
      var k := FindAccount(wallets[w].accounts, index);
      if 0 < k < |wallets[w].accounts| {
        var previous := wallets[w].accounts[k - 1];
        wallets := wallets[w := wallets[w].(accounts := wallets[w].accounts[..k] + wallets[w].accounts[k + 1..])];
        StoreWallets(wallets);
        SwitchToAccount(previous.index, lookup);
      }
    }

    method UpdateAccountName(index: int, newName: string)
      modifies this`wallets, this`storedWallets
      ensures View() == Next(old(View()), RenameAccount(index, newName))
    {
      var w := FindWallet(wallets, walletId);
      if w < |wallets| {
        var k := FindAccount(wallets[w].accounts, index);
        if k < |wallets[w].accounts| {
          var account := wallets[w].accounts[k].(name := newName);
          wallets := wallets[w := wallets[w].(accounts := wallets[w].accounts[k := account])];
        }
      }
      StoreWallets(wallets);
    }

    method UpdateWalletName(id: string, newName: string)
      modifies this`wallets, this`storedWallets
      ensures View() == Next(old(View()), RenameWallet(id, newName))
    {
      var w := FindWallet(wallets, id);
      if w < |wallets| {
        wallets := wallets[w := wallets[w].(name := newName)];
        StoreWallets(wallets);
      }
    }
  }
}
