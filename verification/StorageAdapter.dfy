// The PWA's storage adapter, pwa/lib/storage-adapter.ts: an IndexedDB store for wallet
// state beside the browser's localStorage.

module StorageAdapter {
  import opened Basics

  predicate StartsWith(s: string, prefix: string) { prefix <= s }

  predicate UsesDatabase(key: string) {
    || StartsWith(key, "local:wallet_")
    || StartsWith(key, "session:wallet_")
    || StartsWith(key, "local:authorized_origins")
  }

  /** The localStorage keys that `clear` removes. */
  predicate Clearable(key: string) {
    || StartsWith(key, "local:wallet_")
    || StartsWith(key, "session:wallet_")
    || StartsWith(key, "authorized_origins")
    || StartsWith(key, "node_stake_")
    || StartsWith(key, "referrer_")
  }

  /** localStorage: entries in the order its key(i) enumerates them, no key twice. */
  type Items<T> = seq<(string, T)>

  predicate DistinctKeys<T>(items: Items<T>) { forall i, j :: 0 <= i < j < |items| ==> items[i].0 != items[j].0 }

  function Lookup<T>(items: Items<T>, key: string): Option<T> {
    if items == [] then None else if items[0].0 == key then Some(items[0].1) else Lookup(items[1..], key)
  }

  function Without<T>(items: Items<T>, key: string): Items<T> {
    if items == [] then []
    else if items[0].0 == key then Without(items[1..], key)
    else [items[0]] + Without(items[1..], key)
  }

  function Stored<T>(items: Items<T>, key: string, value: T): Items<T> {
    if items == [] then [(key, value)]
    else if items[0].0 == key then [(key, value)] + items[1..]
    else [items[0]] + Stored(items[1..], key, value)
  }

  function WithoutAll<T>(items: Items<T>, keys: seq<string>): Items<T>
    decreases |keys|
  {
    if keys == [] then items else WithoutAll(Without(items, keys[0]), keys[1..])
  }

  /** The clearable keys among the items, in order. */
  function ClearableKeys<T>(items: Items<T>): seq<string> {
    if items == [] then []
    else (if Clearable(items[0].0) then [items[0].0] else []) + ClearableKeys(items[1..])
  }

  /** The items that survive a complete `clear`, in order. */
  function Survivors<T>(items: Items<T>): Items<T> {
    if items == [] then []
    else (if Clearable(items[0].0) then [] else [items[0]]) + Survivors(items[1..])
  }

  class Storage<T> {
    var database: map<string, T>
    var local: Items<T>
    /** Every durable content the database has had, oldest first: where a crash can leave it. */
    var history: seq<map<string, T>>

    constructor (database: map<string, T>, local: Items<T>)
      ensures this.database == database && this.local == local && history == [database]
    {
      this.database, this.local := database, local;
      history := [database];
    }

    method Get(key: string) returns (value: Option<T>)
      ensures value == if !UsesDatabase(key) then Lookup(local, key)
                       else if key in database then Some(database[key]) else None
    {
      if UsesDatabase(key) {
        value := if key in database then Some(database[key]) else None;
      } else {
        value := Lookup(local, key);
      }
    }

    /** One durable write; `works` is false when the underlying write is refused. */
    method Set(key: string, value: T, works: bool) returns (ok: bool)
      modifies this
      ensures ok == works
      ensures !works ==> unchanged(this)
      ensures works && UsesDatabase(key) ==>
                database == old(database)[key := value] && local == old(local) && history == old(history) + [database]
      ensures works && !UsesDatabase(key) ==>
                local == Stored(old(local), key, value) && database == old(database) && history == old(history)
    {
      if works {
        if UsesDatabase(key) {
          database := database[key := value];
          history := history + [database];
        } else {
          local := Stored(local, key, value);
        }
      }
      ok := works;
    }

    method Remove(key: string, works: bool) returns (ok: bool)
      modifies this
      ensures ok == works
      ensures !works ==> unchanged(this)
      ensures works && UsesDatabase(key) ==>
                database == old(database) - {key} && local == old(local) && history == old(history) + [database]
      ensures works && !UsesDatabase(key) ==>
                local == Without(old(local), key) && database == old(database) && history == old(history)
    {
      if works {
        if UsesDatabase(key) {
          database := database - {key};
          history := history + [database];
        } else {
          local := Without(local, key);
        }
      }
      ok := works;
    }

    method CollectClearable() returns (keys: seq<string>)
      ensures keys == ClearableKeys(local)
    {
      hide Clearable;
      keys := [];
      for i := 0 to |local|
        invariant ClearableKeys(local) == keys + ClearableKeys(local[i..])
      {
        assert local[i..][1..] == local[i + 1..];
        if Clearable(local[i].0) {
          keys := keys + [local[i].0];
        }
      }
    }

    /**
     * One transaction empties the database; then the clearable localStorage keys are collected
     * and removed one by one, until removal number `localFault`, if any, throws.
     */
    method Clear(databaseWorks: bool, localFault: Option<nat>) returns (ok: bool)
      modifies this
      ensures !databaseWorks ==> !ok && unchanged(this)
      ensures databaseWorks ==> database == map[] && history == old(history) + [map[]]
      ensures databaseWorks && localFault.None? ==> ok && local == Survivors(old(local))
      ensures databaseWorks && localFault.Some? ==>
                var keys := ClearableKeys(old(local));
                if localFault.value < |keys| then !ok && local == WithoutAll(old(local), keys[..localFault.value])
                else ok && local == Survivors(old(local))
    {
      hide Without, ClearableKeys, Survivors;
      if !databaseWorks {
        return false;
      }
      database := map[];
      history := history + [database];
      var keys := CollectClearable();
      for i := 0 to |keys|
        invariant database == map[] && history == old(history) + [map[]]
        invariant localFault.Some? ==> i <= localFault.value
        invariant local == WithoutAll(old(local), keys[..i])
      {
        if localFault == Some(i) {
          return false;
        }
        WithoutAllSnoc(old(local), keys[..i], keys[i]);
        assert keys[..i] + [keys[i]] == keys[..i + 1];
        local := Without(local, keys[i]);
      }
      assert keys[..|keys|] == keys;
      ClearsExactly(old(local));
      return true;
    }
  }

  lemma {:induction false} WithoutAllSnoc<T>(items: Items<T>, keys: seq<string>, key: string)
    ensures WithoutAll(items, keys + [key]) == Without(WithoutAll(items, keys), key)
    decreases |keys|
  {
    if keys == [] {
      assert keys + [key] == [key] && [key][1..] == [];
    } else {
      assert (keys + [key])[1..] == keys[1..] + [key];
      WithoutAllSnoc(Without(items, keys[0]), keys[1..], key);
    }
  }

  lemma {:induction false} WithoutAllCons<T>(item: (string, T), items: Items<T>, keys: seq<string>)
    ensures WithoutAll([item] + items, keys)
         == if item.0 in keys then WithoutAll(items, keys) else [item] + WithoutAll(items, keys)
    decreases |keys|
  {
    if keys == [] {
    } else {
      assert ([item] + items)[1..] == items;
      if item.0 == keys[0] {
        assert Without([item] + items, keys[0]) == Without(items, keys[0]);
      } else {
        assert Without([item] + items, keys[0]) == [item] + Without(items, keys[0]);
        WithoutAllCons(item, Without(items, keys[0]), keys[1..]);
      }
    }
  }

  lemma {:induction false} WithoutAllKeeps<T>(items: Items<T>, keys: seq<string>)
    requires forall i :: 0 <= i < |keys| ==> Clearable(keys[i])
    requires forall i :: 0 <= i < |items| && Clearable(items[i].0) ==> items[i].0 in keys
    ensures WithoutAll(items, keys) == Survivors(items)
  {
    hide Clearable;
    if items == [] {
      WithoutAllEmpty<T>(keys);
    } else {
      assert items == [items[0]] + items[1..];
      WithoutAllCons(items[0], items[1..], keys);
      WithoutAllKeeps(items[1..], keys);
    }
  }

  lemma {:induction false} WithoutAllEmpty<T>(keys: seq<string>)
    ensures WithoutAll<T>([], keys) == []
  {
    if keys == [] {
    } else {
      WithoutAllEmpty<T>(keys[1..]);
    }
  }

  lemma {:induction false} ClearableKeysComplete<T>(items: Items<T>)
    ensures forall i :: 0 <= i < |ClearableKeys(items)| ==> Clearable(ClearableKeys(items)[i])
    ensures forall i :: 0 <= i < |items| && Clearable(items[i].0) ==> items[i].0 in ClearableKeys(items)
  {
    hide Clearable;
    if items == [] {
    } else {
      ClearableKeysComplete(items[1..]);
      assert forall i :: 0 < i < |items| ==> items[i] == items[1..][i - 1];
    }
  }

  /** Removing the collected keys one by one keeps exactly the items whose key has no cleared prefix. */
  lemma ClearsExactly<T>(items: Items<T>)
    ensures WithoutAll(items, ClearableKeys(items)) == Survivors(items)
  {
    ClearableKeysComplete(items);
    WithoutAllKeeps(items, ClearableKeys(items));
  }

  /**
   * Wallet and authorization keys live in the database; the referrer lists of useReferrerManager do not, and
   * outlive `clear`, which takes the unprefixed ones.
   */
  lemma KeyPlacement(suffix: string)
    ensures UsesDatabase("local:wallet_" + suffix) && UsesDatabase("session:wallet_" + suffix)
    ensures UsesDatabase("local:authorized_origins" + suffix)
    ensures !UsesDatabase("local:referrer_names_" + suffix) && !Clearable("local:referrer_names_" + suffix)
    ensures !UsesDatabase("local:referrer_txid_" + suffix) && !Clearable("local:referrer_txid_" + suffix)
    ensures Clearable("local:wallet_" + suffix) && Clearable("session:wallet_" + suffix)
    ensures Clearable("authorized_origins" + suffix) && Clearable("node_stake_" + suffix)
    ensures Clearable("referrer_" + suffix)
  {
    ReferrerPlacement(suffix);
  }

  lemma ReferrerPlacement(suffix: string)
    ensures !UsesDatabase("local:referrer_names_" + suffix) && !Clearable("local:referrer_names_" + suffix)
    ensures !UsesDatabase("local:referrer_txid_" + suffix) && !Clearable("local:referrer_txid_" + suffix)
  {
    var names, txid := "local:referrer_names_" + suffix, "local:referrer_txid_" + suffix;
    assert names[0] == 'l' && names[6] == 'r' && txid[0] == 'l' && txid[6] == 'r';
    assert "local:wallet_"[6] == 'w' && "session:wallet_"[0] == 's' && "local:authorized_origins"[6] == 'a';
    assert "authorized_origins"[0] == 'a' && "node_stake_"[0] == 'n' && "referrer_"[0] == 'r';
  }
}
