// The referrer-name cache of pwa/composables/useReferrerManager.ts: two cleaning loops over names kept
// in localStorage, each beside its own transaction id entry.

module Referrers {
  import opened Basics
  import opened StorageAdapter

  /** A stored JSON list of names, JSON that is neither list nor text, or a text that is not JSON. */
  datatype Value = Names(names: seq<string>) | NotList | Plain(text: string)

  function NamesKey(address: string): string { "local:referrer_names_" + address }

  function TxIdKey(address: string, name: string): string { "local:referrer_txid_" + (address + "_" + name) }

  /** The names listed; none for an entry that is missing or holds no list. */
  function NamesAt(items: Items<Value>, address: string): seq<string> {
    var v := Lookup(items, NamesKey(address));
    if v.Some? && v.value.Names? then v.value.names else []
  }

  /** Using the entry as a list does not throw: there is none, or an empty text, or a list. */
  predicate Readable(items: Items<Value>, address: string) {
    var v := Lookup(items, NamesKey(address));
    v.None? || v.value.Names? || v.value == Plain("")
  }

  /** getLocalReferrerNames, which turns a text that is not JSON into no names, returns a list. */
  predicate Listed(items: Items<Value>, address: string) { Lookup(items, NamesKey(address)) != Some(NotList) }

  /** A removal writes: there is a list to write back, if only the same one. */
  predicate Stores(items: Items<Value>, address: string) {
    var v := Lookup(items, NamesKey(address));
    v.Some? && v.value.Names?
  }

  /** getReferrerTxId: an empty text counts as missing. */
  function TxIdAt(items: Items<Value>, address: string, name: string): Option<string> {
    var v := Lookup(items, TxIdKey(address, name));
    if v.Some? && v.value.Plain? && v.value.text != "" then Some(v.value.text) else None
  }

  predicate Valid(items: Items<Value>, address: string, name: string) { TxIdAt(items, address, name).Some? }

  /** The names with a transaction id, in order, duplicates kept. */
  function Kept(items: Items<Value>, address: string, names: seq<string>): (r: seq<string>)
    ensures |r| <= |names|
    ensures forall x :: x in r <==> x in names && Valid(items, address, x)
  {
    if names == [] then []
    else
      var before := Kept(items, address, names[..|names| - 1]);
      var last := names[|names| - 1];
      assert names == names[..|names| - 1] + [last];
      if Valid(items, address, last) then before + [last] else before
  }

  function WithoutName(names: seq<string>, name: string): (r: seq<string>)
    ensures forall x :: x in r <==> x in names && x != name
  {
    if names == [] then []
    else
      var last := names[|names| - 1];
      assert names == names[..|names| - 1] + [last];
      WithoutName(names[..|names| - 1], name) + if last == name then [] else [last]
  }

  /** Names are judged one by one and keep their order and number: the filter goes through a concatenation. */
  lemma {:induction false} KeptJoins(items: Items<Value>, address: string, a: seq<string>, b: seq<string>)
    ensures Kept(items, address, a + b) == Kept(items, address, a) + Kept(items, address, b)
  {
    hide Valid;
    if b == [] {
      assert a + b == a;
    } else {
      var n := |b| - 1;
      assert (a + b)[..|a| + n] == a + b[..n] && (a + b)[|a| + n] == b[n];
      KeptJoins(items, address, a, b[..n]);
    }
  }

  /** So does a removal. */
  lemma {:induction false} WithoutJoins(a: seq<string>, b: seq<string>, name: string)
    ensures WithoutName(a + b, name) == WithoutName(a, name) + WithoutName(b, name)
  {
    if b == [] {
      assert a + b == a;
    } else {
      var n := |b| - 1;
      assert (a + b)[..|a| + n] == a + b[..n] && (a + b)[|a| + n] == b[n];
      WithoutJoins(a, b[..n], name);
    }
  }

  /** One name is kept exactly when it has a transaction id, and dropped exactly when it is the one removed. */
  lemma FiltersOne(items: Items<Value>, address: string, x: string, name: string)
    ensures Kept(items, address, [x]) ==
              (match Lookup(items, TxIdKey(address, x))
               case Some(v) => if v.Plain? && v.text != "" then [x] else []
               case None => [])
    ensures WithoutName([x], name) == if x == name then [] else [x]
  {
    hide TxIdKey;
    assert [x][..0] == [];
  }

  lemma {:induction false} LookupStored<T>(items: Items<T>, key: string, value: T, other: string)
    ensures Lookup(Stored(items, key, value), other) == if other == key then Some(value) else Lookup(items, other)
  {
    if items == [] {
      assert [(key, value)][1..] == [];
    } else {
      LookupStored(items[1..], key, value, other);
    }
  }

  lemma KeysDiffer(address: string, other: string, name: string)
    ensures NamesKey(address) != TxIdKey(other, name)
  {
    assert NamesKey(address)[15] == 'n' && TxIdKey(other, name)[15] == 't';
  }

  /** Rewriting a name list leaves every transaction id, and every other address's list, as it was. */
  lemma StoringNames(items: Items<Value>, address: string, names: seq<string>)
    ensures var v := Stored(items, NamesKey(address), Names(names));
            && NamesAt(v, address) == names && Readable(v, address)
            && (forall a, n :: TxIdAt(v, a, n) == TxIdAt(items, a, n))
            && (forall a :: a != address ==> NamesAt(v, a) == NamesAt(items, a))
  {
    hide NamesKey, TxIdKey;
    var v := Stored(items, NamesKey(address), Names(names));
    LookupStored(items, NamesKey(address), Names(names), NamesKey(address));
    forall a, n
      ensures TxIdAt(v, a, n) == TxIdAt(items, a, n)
    {
      KeysDiffer(address, a, n);
      LookupStored(items, NamesKey(address), Names(names), TxIdKey(a, n));
    }
    forall a | a != address
      ensures NamesAt(v, a) == NamesAt(items, a)
    {
      NamesKeyInjective(a, address);
      LookupStored(items, NamesKey(address), Names(names), NamesKey(a));
    }
  }

  lemma NamesKeyInjective(a: string, b: string)
    requires a != b
    ensures NamesKey(a) != NamesKey(b)
  {
    var p := "local:referrer_names_";
    assert NamesKey(a)[|p|..] == a && NamesKey(b)[|p|..] == b;
  }

  /** One address's transaction id entries are told apart by name. */
  lemma TxIdKeyInjective(address: string, m: string, n: string)
    requires TxIdKey(address, m) == TxIdKey(address, n)
    ensures m == n
  {
    var p := "local:referrer_txid_" + (address + "_");
    assert TxIdKey(address, m)[|p|..] == m && TxIdKey(address, n)[|p|..] == n;
  }

  lemma {:induction false} KeptAgree(items: Items<Value>, v: Items<Value>, address: string, names: seq<string>)
    requires forall n :: TxIdAt(v, address, n) == TxIdAt(items, address, n)
    ensures Kept(v, address, names) == Kept(items, address, names)
  {
    hide TxIdAt;
    if names == [] {
    } else {
      KeptAgree(items, v, address, names[..|names| - 1]);
    }
  }

  /** Dropping a name without a transaction id does not change what is kept. */
  lemma {:induction false} KeptWithout(items: Items<Value>, address: string, names: seq<string>, name: string)
    requires !Valid(items, address, name)
    ensures Kept(items, address, WithoutName(names, name)) == Kept(items, address, names)
  {
    hide Valid;
    if names == [] {
    } else {
      var before, last := names[..|names| - 1], names[|names| - 1];
      KeptWithout(items, address, before, name);
      var rest := WithoutName(before, name);
      if last == name {
        assert rest + [] == rest;
      } else {
        assert (rest + [last])[..|rest|] == rest;
      }
    }
  }

  lemma {:induction false} AllValidKept(items: Items<Value>, address: string, names: seq<string>)
    requires forall x :: x in names ==> Valid(items, address, x)
    ensures Kept(items, address, names) == names
  {
    hide Valid;
    if names == [] {
    } else {
      assert names == names[..|names| - 1] + [names[|names| - 1]];
      AllValidKept(items, address, names[..|names| - 1]);
    }
  }

  /** Cleaning twice is cleaning once. */
  lemma KeptTwice(items: Items<Value>, address: string, names: seq<string>)
    ensures Kept(items, address, Kept(items, address, names)) == Kept(items, address, names)
  {
    AllValidKept(items, address, Kept(items, address, names));
  }

  /** A list as long as its kept part is its kept part: skipping the rewrite then changes nothing. */
  lemma {:induction false} NothingDropped(items: Items<Value>, address: string, names: seq<string>)
    requires |Kept(items, address, names)| == |names|
    ensures Kept(items, address, names) == names
  {
    if names == [] {
    } else {
      NothingDropped(items, address, names[..|names| - 1]);
      assert names == names[..|names| - 1] + [names[|names| - 1]];
    }
  }

  class ReferrerManager {
    const storage: Storage<Value>

    constructor (storage: Storage<Value>)
      ensures this.storage == storage
    {
      this.storage := storage;
    }

    ghost predicate SameOthers(before: Items<Value>, address: string)
      reads storage
    {
      && (forall a, n :: TxIdAt(storage.local, a, n) == TxIdAt(before, a, n))
      && (forall a :: a != address ==> NamesAt(storage.local, a) == NamesAt(before, a))
    }

    /** No list at all when the entry is JSON but no list: the callers' loops throw on what is returned then. */
    method GetLocalReferrerNames(address: string) returns (names: Option<seq<string>>)
      ensures names == if Listed(storage.local, address) then Some(NamesAt(storage.local, address)) else None
    {
      hide UsesDatabase, Clearable;
      KeyPlacement(address);
      var value := storage.Get(NamesKey(address));
      match value
      case None => names := Some([]);
      case Some(Plain(_)) => names := Some([]);
      case Some(NotList) => names := None;
      case Some(Names(stored)) => names := Some(stored);
    }

    method GetReferrerTxId(address: string, name: string) returns (txId: Option<string>)
      ensures txId == TxIdAt(storage.local, address, name)
    {
      hide UsesDatabase, Clearable;
      KeyPlacement(address + "_" + name);
      var value := storage.Get(TxIdKey(address, name));
      txId := if value.Some? && value.value.Plain? && value.value.text != "" then Some(value.value.text) else None;
    }

    method StoreNames(address: string, names: seq<string>, works: bool) returns (ok: bool)
      modifies storage
      ensures ok == works && SameOthers(old(storage.local), address)
      ensures NamesAt(storage.local, address) == if works then names else NamesAt(old(storage.local), address)
      ensures works ==> Readable(storage.local, address)
      ensures !works ==> storage.local == old(storage.local)
    {
      hide UsesDatabase, Clearable, NamesKey, TxIdKey;
      assert !UsesDatabase(NamesKey(address)) by { NamesPlacement(address); }
      StoringNames(storage.local, address, names);
      ok := storage.Set(NamesKey(address), Names(names), works);
    }

    /**
     * A name already in the list is left alone, a new one goes to the end; an entry that is no list, or does
     * not parse, is reported and left as it is.
     */
    method AddLocalReferrerName(address: string, name: string, works: bool) returns (ok: bool)
      modifies storage
      ensures SameOthers(old(storage.local), address)
      ensures ok <==> Readable(old(storage.local), address) && (works || name in NamesAt(old(storage.local), address))
      ensures !ok ==> storage.local == old(storage.local)
      ensures ok ==>
                var names := NamesAt(old(storage.local), address);
                NamesAt(storage.local, address) == if name in names then names else names + [name]
    {
      hide NamesKey, TxIdKey, UsesDatabase, Clearable;
      assert !UsesDatabase(NamesKey(address)) by { NamesPlacement(address); }
      var value := storage.Get(NamesKey(address));
      if value == Some(NotList) || (value.Some? && value.value.Plain? && value.value.text != "") {
        return false;
      }
      var names := if value.Some? && value.value.Names? then value.value.names else [];
      if name in names {
        return true;
      }
      ok := StoreNames(address, names + [name], works);
    }

    method RemoveLocalReferrerName(address: string, name: string, works: bool) returns (ok: bool)
      modifies storage
      ensures SameOthers(old(storage.local), address)
      ensures ok ==> NamesAt(storage.local, address) == WithoutName(NamesAt(old(storage.local), address), name)
      ensures !ok ==> storage.local == old(storage.local)
      ensures ok <==> Readable(old(storage.local), address) && (works || !Stores(old(storage.local), address))
      ensures Readable(old(storage.local), address) ==> Readable(storage.local, address)
    {
      hide NamesKey, TxIdKey, UsesDatabase, Clearable;
      assert !UsesDatabase(NamesKey(address)) by { NamesPlacement(address); }
      var value := storage.Get(NamesKey(address));
      match value
      case None => ok := true;
      case Some(NotList) => ok := false;
      case Some(Plain(text)) => ok := text == "";
      case Some(Names(names)) => ok := StoreNames(address, WithoutName(names, name), works);
    }

    /**
     * One removal per name without a transaction id, over a copy of the list, until write number
     * `fault`, if any, throws. Finished or not, the valid names are all still there, in order. An entry
     * that is JSON but no list is reported and left as it is.
     */
    method CleanInvalidReferrerCache(address: string, fault: Option<nat>) returns (ok: bool)
      modifies storage
      ensures SameOthers(old(storage.local), address)
      ensures Kept(old(storage.local), address, NamesAt(storage.local, address))
           == Kept(old(storage.local), address, NamesAt(old(storage.local), address))
      ensures ok || fault.None? ==>
                NamesAt(storage.local, address) ==
                      Kept(old(storage.local), address, NamesAt(old(storage.local), address))
      ensures fault.None? ==> (ok <==> Listed(old(storage.local), address))
      ensures !Listed(old(storage.local), address) ==> !ok && storage.local == old(storage.local)
    {
      hide NamesAt, TxIdAt, Kept, Readable, WithoutName, Listed, Stores;
      var list := GetLocalReferrerNames(address);
      ghost var before := storage.local;
      if list.None? {
        UnlistedEmpty(before, address);
        return false;
      }
      var names := list.value;
      if names != [] {
        NonemptyReadable(before, address);
      }
      var writes := 0;
      for i := 0 to |names|
        invariant SameOthers(before, address) && (names == [] || Readable(storage.local, address))
        invariant Kept(before, address, NamesAt(storage.local, address)) == Kept(before, address, names)
        invariant forall x :: x in NamesAt(storage.local, address) ==> Valid(before, address, x) || x in names[i..]
      {
        assert names[i..] == [names[i]] + names[i + 1..];
        var txId := GetReferrerTxId(address, names[i]);
        if txId.None? {
          ghost var current := NamesAt(storage.local, address);
          var removed := RemoveLocalReferrerName(address, names[i], fault != Some(writes));
          writes := writes + 1;
          if !removed {
            return false;
          }
          KeptWithout(before, address, current, names[i]);
        }
      }
      AllValidKept(before, address, NamesAt(storage.local, address));
      ok := true;
    }

    /** One rewrite of the list, only when something drops out; the result maps exactly the kept names. */
    method GetAllReferrerTxIds(address: string, works: bool) returns (txIds: map<string, string>)
      modifies storage
      ensures SameOthers(old(storage.local), address)
      ensures var names := NamesAt(old(storage.local), address);
              var kept := Kept(old(storage.local), address, names);
              var ok := works || kept == names;
              && NamesAt(storage.local, address) == (if ok then kept else names)
              && (if ok then
                    (forall x :: x in txIds <==> x in kept)
                    && (forall x :: x in txIds ==> TxIdAt(old(storage.local), address, x) == Some(txIds[x]))
                  else txIds == map[])
              && (kept == names || !works ==> storage.local == old(storage.local))
    {
      hide NamesAt, TxIdAt, Listed;
      var list := GetLocalReferrerNames(address);
      txIds := map[];
      if list.None? {
        UnlistedEmpty(storage.local, address);
        return;
      }
      var names := list.value;
      var validNames := [];
      for i := 0 to |names|
        invariant storage.local == old(storage.local)
        invariant validNames == Kept(storage.local, address, names[..i])
        invariant forall x :: x in txIds <==> x in validNames
        invariant forall x :: x in txIds ==> TxIdAt(storage.local, address, x) == Some(txIds[x])
      {
        assert names[..i + 1][..i] == names[..i];
        var txId := GetReferrerTxId(address, names[i]);
        if txId.Some? {
          txIds := txIds[names[i] := txId.value];
          validNames := validNames + [names[i]];
        }
      }
      assert names[..|names|] == names;
      if |validNames| != |names| {
        var ok := StoreNames(address, validNames, works);
        if !ok {
          txIds := map[];
        }
      } else {
        NothingDropped(storage.local, address, names);
      }
    }

    /** Two cleanings, the first possibly cut short, the second by either loop: the list ends up the same. */
    method CleanTwice(address: string, fault: Option<nat>, byRewrite: bool)
      modifies storage
      ensures SameOthers(old(storage.local), address)
      ensures NamesAt(storage.local, address) == Kept(old(storage.local), address, NamesAt(old(storage.local), address))
    {
      hide NamesAt, TxIdAt;
      ghost var before := storage.local;
      var _ := CleanInvalidReferrerCache(address, fault);
      KeptAgree(before, storage.local, address, NamesAt(storage.local, address));
      if byRewrite {
        var _ := GetAllReferrerTxIds(address, true);
      } else {
        var _ := CleanInvalidReferrerCache(address, None);
      }
    }
  }

  lemma UnlistedEmpty(items: Items<Value>, address: string)
    requires !Listed(items, address)
    ensures NamesAt(items, address) == [] && Kept(items, address, []) == []
  {
  }

  lemma NonemptyReadable(items: Items<Value>, address: string)
    requires NamesAt(items, address) != []
    ensures Readable(items, address)
  {
  }

  lemma NamesPlacement(address: string)
    ensures !UsesDatabase(NamesKey(address))
  {
    KeyPlacement(address);
  }
}
