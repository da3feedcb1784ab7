// The PWA's wallet state singleton, pwa/lib/walletStorage.ts: one authoritative snapshot write per
// update, best-effort mirrors behind it, over the storage adapter.

module SnapshotStore {
  import opened Basics
  import opened JsonValues
  import opened SnapshotSpec
  import opened SnapshotTheorems
  import opened StorageAdapter

  /** One call of every listener. */
  datatype Change = Change(key: string, newValue: Option<Json>, oldValue: Option<Json>)

  function ValueOf(state: State, key: string): Option<Json> { if key in state then Some(state[key]) else None }

  /** The listener calls of a batch: changed keys in update order, each with its new and its old value. */
  function Changes(before: State, after: State, keys: seq<string>): (r: seq<Change>)
    ensures |r| == |keys|
    ensures forall i :: 0 <= i < |keys| ==> r[i] == Change(keys[i], ValueOf(after, keys[i]), ValueOf(before, keys[i]))
  {
    seq(|keys|, i requires 0 <= i < |keys| => Change(keys[i], ValueOf(after, keys[i]), ValueOf(before, keys[i])))
  }

  /**
   * The listener calls of a committed batch: one for each update that is an object or differs from what memory
   * held, with the new value and the old one, in the order of the updates, and no other.
   */
  lemma NotifiedExactly(before: State, updates: Updates)
    requires ValidUpdates(updates)
    ensures var calls := Changes(before, Overlay(before, updates), ChangedKeys(before, updates));
            && (forall i :: 0 <= i < |updates| ==>
                  (Change(updates[i].0, Some(updates[i].1), ValueOf(before, updates[i].0)) in calls <==>
                     updates[i].1.JObject? || updates[i].1.JArray?
                     || ValueOf(before, updates[i].0) != Some(updates[i].1)))
            && (forall c :: c in calls ==>
                  (exists i :: 0 <= i < |updates|
                               && c == Change(updates[i].0, Some(updates[i].1), ValueOf(before, updates[i].0))))
            && (forall i, j :: 0 <= i < j < |calls| ==> calls[i].key != calls[j].key)
  {
    hide STATE_KEYS, Overlay, ChangedKeys;
    ChangedExactly(before, updates);
    OverlayHolds(before, updates);
    var keys, after := ChangedKeys(before, updates), Overlay(before, updates);
    var calls := Changes(before, after, keys);
    forall i | 0 <= i < |updates|
      ensures Change(updates[i].0, Some(updates[i].1), ValueOf(before, updates[i].0)) in calls <==>
                !Held(before, updates[i].0, updates[i].1)
    {
      var c := Change(updates[i].0, Some(updates[i].1), ValueOf(before, updates[i].0));
      if c in calls {
        var k :| 0 <= k < |calls| && calls[k] == c;
        assert keys[k] in keys && keys[k] == updates[i].0;
      }
      if updates[i].0 in keys {
        var k :| 0 <= k < |keys| && keys[k] == updates[i].0;
        assert calls[k] == c;
      }
    }
    forall c | c in calls
      ensures exists i :: 0 <= i < |updates|
                          && c == Change(updates[i].0, Some(updates[i].1), ValueOf(before, updates[i].0))
    {
      var k :| 0 <= k < |calls| && calls[k] == c;
      assert keys[k] in keys;
      var i :| 0 <= i < |updates| && updates[i].0 == keys[k];
      assert c == Change(updates[i].0, Some(updates[i].1), ValueOf(before, updates[i].0));
    }
  }

  lemma KeyUsesDatabase(name: string)
    ensures UsesDatabase(Key(name))
  {
  }

  class WalletStorage {
    var state: State
    var snapshotRevision: int
    var initialized: bool
    var notified: seq<Change>
    const store: Storage<Document>

    constructor (store: Storage<Document>)
      ensures this.store == store && Memory() == FRESH && notified == []
    {
      this.store := store;
      state, snapshotRevision, initialized, notified := DEFAULT_STATE, 0, false, [];
    }

    ghost predicate Valid()
      reads this, store
    {
      store.history != [] && store.history[|store.history| - 1] == store.database
    }

    function Memory(): Memory
      reads this
    {
      SnapshotSpec.Memory(state, snapshotRevision, initialized)
    }

    /** Memory, database, and every durable content in between are what the effect says. */
    twostate predicate Performs(r: Effect)
      reads this, store
    {
      && Memory() == r.memory
      && store.history == old(store.history) + r.writes
      && store.database == Final(old(store.database), r.writes)
      && store.local == old(store.local)
    }

    method PersistSnapshot(nextState: State, works: bool) returns (ok: bool)
      requires Valid()
      modifies this`snapshotRevision, store
      ensures Valid() && ok == works
      ensures !ok ==> unchanged(this) && unchanged(store)
      ensures ok ==> snapshotRevision == old(snapshotRevision) + 1 && store.local == old(store.local)
      ensures ok ==> store.database == Committed(old(store.database), old(Memory()), nextState)
      ensures ok ==> store.history == old(store.history) + [store.database]
    {
      KeyUsesDatabase("state_snapshot_v1");
      ok := store.Set(SNAPSHOT_KEY, SnapshotDocument(snapshotRevision + 1, nextState), works);
      if ok {
        snapshotRevision := snapshotRevision + 1;
      }
    }

    /** Promise.allSettled: every mirror write is attempted, in order, whatever the others do. */
    method PersistLegacyMirrors(updates: Updates, refused: set<string>)
      requires Valid()
      modifies store
      ensures Valid() && store.local == old(store.local)
      ensures store.history == old(store.history) + MirrorWrites(old(store.database), updates, refused)
    {
      hide UsesDatabase, Key;
      for i := 0 to |updates|
        invariant Valid() && store.local == old(store.local)
        invariant store.history + MirrorWrites(store.database, updates[i..], refused)
               == old(store.history) + MirrorWrites(old(store.database), updates, refused)
      {
        var (key, value) := updates[i];
        assert updates[i..][1..] == updates[i + 1..];
        KeyUsesDatabase(key);
        var _ := store.Set(Key(key), Parsed(value), key !in refused);
      }
    }

    method InitializeState(snapshotWorks: bool) returns (ok: bool)
      requires Valid()
      modifies this, store
      ensures Valid() && notified == old(notified)
      ensures ok == InitializeFrom(old(Memory()), old(store.database), snapshotWorks).ok
      ensures Performs(InitializeFrom(old(Memory()), old(store.database), snapshotWorks))
    {
      hide UsesDatabase, Key, STATE_KEYS, DEFAULT_STATE, ValidSnapshot, Spread;
      if initialized {
        return true;
      }
      KeyUsesDatabase("state_snapshot_v1");
      var snapshot := store.Get(SNAPSHOT_KEY);
      if snapshot.Some? && ValidSnapshot(snapshot.value) {
        state := SnapshotState(store.database);
        snapshotRevision := SnapshotRevision(store.database);
        initialized := true;
        return true;
      }
      var readable := true;
      for i := 0 to |STATE_KEYS|
        invariant unchanged(store) && unchanged(this`snapshotRevision) && unchanged(this`initialized)
                  && unchanged(this`notified)
        invariant state == MirrorsUpTo(old(state), store.database, i)
        invariant readable <==>
                forall j :: 0 <= j < i && Key(STATE_KEYS[j]) in store.database ==>
                    store.database[Key(STATE_KEYS[j])].Parsed?
      {
        KeyUsesDatabase(STATE_KEYS[i]);
        var stored := store.Get(Key(STATE_KEYS[i]));
        if stored.Some? {
          match stored.value
          case Parsed(value) => state := state[STATE_KEYS[i] := value];
          case Unparsable => readable := false;
        }
      }
      if !readable {
        return false;
      }
      ok := PersistSnapshot(state, snapshotWorks);
      if ok {
        initialized := true;
      }
    }

    method NotifyListeners(keys: seq<string>, oldState: State)
      modifies this`notified
      ensures notified == old(notified) + Changes(oldState, state, keys)
    {
      for i := 0 to |keys|
        invariant notified == old(notified) + Changes(oldState, state, keys[..i])
      {
        notified := notified + [Change(keys[i], ValueOf(state, keys[i]), ValueOf(oldState, keys[i]))];
      }
      assert keys[..|keys|] == keys;
    }

    method SetValue(key: string, value: Json, sameReference: bool, snapshotWorks: bool, refused: set<string>)
      returns (ok: bool)
      requires Valid()
      modifies this, store
      ensures Valid()
      ensures var op := SetOne(key, value, sameReference, snapshotWorks, refused);
              && ok == Apply(old(Memory()), old(store.database), op).ok
              && Performs(Apply(old(Memory()), old(store.database), op))
      ensures notified ==
                old(notified)
                + if snapshotRevision == old(snapshotRevision) then [] else Changes(old(state), state, [key])
      ensures ok && key in STATE_KEYS ==> Holds(old(state), state, [(key, value)])
    {
      hide SNAPSHOT_KEY, Key, SnapshotDocument, Overlay, MirrorWrites, IdenticalTo, STATE_KEYS, Holds;
      if key in STATE_KEYS {
        SetHolds(Memory(), store.database, key, value, sameReference, snapshotWorks, refused);
      }
      if IdenticalTo(Memory(), key, value, sameReference) {
        return true;
      }
      var oldValue := ValueOf(state, key);
      var nextState := state[key := value];
      ok := PersistSnapshot(nextState, snapshotWorks);
      if ok {
        state := nextState;
        notified := notified + [Change(key, Some(value), oldValue)];
        PersistLegacyMirrors([(key, value)], refused);
        OverlayOne(old(state), key, value);
      }
    }

    method BatchUpdate(updates: Updates, snapshotWorks: bool, refused: set<string>) returns (ok: bool)
      requires Valid() && ValidUpdates(updates)
      modifies this, store
      ensures Valid()
      ensures ok == Apply(old(Memory()), old(store.database), Batch(updates, snapshotWorks, refused)).ok
      ensures Performs(Apply(old(Memory()), old(store.database), Batch(updates, snapshotWorks, refused)))
      ensures notified == old(notified) + if snapshotRevision == old(snapshotRevision) then []
                                          else Changes(old(state), state, ChangedKeys(old(state), updates))
      ensures ok <==> snapshotWorks || AllHeld(old(state), updates)
      ensures ok ==> Holds(old(state), state, updates)
      ensures !ok ==> Memory() == old(Memory())
    {
      hide SNAPSHOT_KEY, Key, SnapshotDocument, STATE_KEYS, AllHeld, Holds, Overlay, ChangedKeys, MirrorWrites;
      BatchHolds(Memory(), store.database, updates, snapshotWorks, refused);
      var oldState := state;
      var nextState, changedKeys := NextState(updates);
      if changedKeys == [] {
        return true;
      }
      ok := PersistSnapshot(nextState, snapshotWorks);
      if ok {
        state := nextState;
        NotifyListeners(changedKeys, oldState);
        PersistLegacyMirrors(updates, refused);
      }
    }

    /** The comparison loop of batchUpdate over a clone of the state. */
    method NextState(updates: Updates) returns (nextState: State, changedKeys: seq<string>)
      requires ValidUpdates(updates)
      ensures nextState == Overlay(state, updates) && changedKeys == ChangedKeys(state, updates)
    {
      hide STATE_KEYS;
      nextState, changedKeys := state, [];
      for i := 0 to |updates|
        invariant Overlay(nextState, updates[i..]) == Overlay(state, updates)
        invariant changedKeys + ChangedKeys(state, updates[i..]) == ChangedKeys(state, updates)
        invariant forall j :: i <= j < |updates| ==> ValueOf(nextState, updates[j].0) == ValueOf(state, updates[j].0)
      {
        var (key, value) := updates[i];
        assert updates[i..][1..] == updates[i + 1..];
        assert updates[i..][0] == updates[i];
        if Differs(nextState, updates[i]) {
          nextState := nextState[key := value];
          changedKeys := changedKeys + [key];
        } else {
          assert nextState[key := value] == nextState;
        }
      }
    }

    /**
     * Every listener hears of every key the state had, changed or not, with its default and its old value;
     * `keys` are those keys in Object.keys order.
     */
    method Clear(keys: seq<string>, databaseWorks: bool, localFault: Option<nat>) returns (ok: bool)
      requires Valid()
      requires Distinct(keys) && forall key :: key in keys <==> key in state
      modifies this, store
      ensures Valid()
      ensures var localWorks := localFault.None? || localFault.value >= |ClearableKeys(old(store.local))|;
              var r := Apply(old(Memory()), old(store.database), ClearAll(databaseWorks, localWorks));
              && ok == r.ok
              && Memory() == r.memory
              && store.history == old(store.history) + r.writes
              && store.database == Final(old(store.database), r.writes)
              && (ok ==> store.local == Survivors(old(store.local)))
      ensures notified == old(notified) + if ok then Changes(old(state), DEFAULT_STATE, keys) else []
    {
      hide DEFAULT_STATE, STATE_KEYS, ClearableKeys, Survivors, WithoutAll;
      ok := store.Clear(databaseWorks, localFault);
      if !ok {
        return;
      }
      var oldState := state;
      state := DEFAULT_STATE;
      snapshotRevision := 0;
      NotifyListeners(keys, oldState);
    }
  }
}
