// Crash atomicity, agreement of memory and storage, and the compatibility mirrors of
// pwa/lib/walletStorage.ts, over every serial run with every pattern of failed writes.

module SnapshotTheorems {
  import opened Basics
  import opened JsonValues
  import opened SnapshotSpec

  predicate Complete(state: State) { forall name :: name in STATE_KEYS ==> name in state }

  predicate OnlyStateKeys(state: State) { forall name :: name in state ==> name in STATE_KEYS }

  lemma {:induction false} OverlayKeys(state: State, updates: Updates)
    requires Complete(state)
    ensures Complete(Overlay(state, updates))
    decreases |updates|
  {
    if updates == [] {
    } else {
      OverlayKeys(state[updates[0].0 := updates[0].1], updates[1..]);
    }
  }

  lemma {:induction false} MirrorKeys(e: Entries, n: nat)
    requires n <= |STATE_KEYS|
    ensures forall name :: name in MirrorsUpTo(DEFAULT_STATE, e, n) <==> name in STATE_KEYS
  {
    if n == 0 {
      DefaultKeys();
    } else {
      MirrorKeys(e, n - 1);
    }
  }

  /** A written snapshot of a complete state reloads as that state. */
  lemma ReloadCommitted(e: Entries, revision: int, state: State)
    requires Complete(state)
    ensures HasSnapshot(e[SNAPSHOT_KEY := SnapshotDocument(revision, state)])
    ensures SnapshotState(e[SNAPSHOT_KEY := SnapshotDocument(revision, state)]) == state
    ensures SnapshotRevision(e[SNAPSHOT_KEY := SnapshotDocument(revision, state)]) == revision
  {
    DefaultKeys();
    assert DEFAULT_STATE + state == state;
  }

  /** Mirror writes never change what a present snapshot reloads to. */
  lemma {:induction false} MirrorWritesKeepSnapshot(e: Entries, updates: Updates, refused: set<string>)
    requires SNAPSHOT_KEY in e
    requires forall i :: 0 <= i < |updates| ==> updates[i].0 in STATE_KEYS
    ensures forall w :: w in MirrorWrites(e, updates, refused) ==>
              SNAPSHOT_KEY in w && w[SNAPSHOT_KEY] == e[SNAPSHOT_KEY]
    decreases |updates|
  {
    hide SNAPSHOT_KEY, STATE_KEYS, Key;
    if updates == [] {
    } else {
      assert updates[0].0 in STATE_KEYS;
      MirrorIsNotSnapshot(updates[0].0);
      if updates[0].0 in refused {
        MirrorWritesKeepSnapshot(e, updates[1..], refused);
      } else {
        MirrorWritesKeepSnapshot(e[Key(updates[0].0) := Parsed(updates[0].1)], updates[1..], refused);
      }
    }
  }

  /** Storage reloads to exactly what memory holds. */
  predicate Agrees(m: Memory, e: Entries) { Reload(e) == Some(m.state) }

  /**
   * Crash atomicity: wherever inside an operation the process dies, a fresh instance loads exactly
   * the state a reload gave before the operation, or exactly the state of the completed operation.
   */
  lemma CrashAtomic(m: Memory, e: Entries, op: Op, w: Entries)
    requires Complete(m.state) && ValidOp(op)
    requires w in Apply(m, e, op).writes
    ensures Reload(w) == Some(match op
                              case ClearAll(_, _) => DEFAULT_STATE
                              case _ => Apply(m, e, op).memory.state)
    ensures Complete(Apply(m, e, op).memory.state)
  {
    match op
    case ClearAll(_, _) =>
      EmptyReload();
      DefaultKeys();
    case SetOne(key, value, _, _, refused) =>
      UpdateAtomic(m, e, [(key, value)], refused, w);
    case Batch(updates, _, refused) =>
      UpdateAtomic(m, e, updates, refused, w);
  }

  lemma EmptyReload()
    ensures Reload(map[]) == Some(DEFAULT_STATE)
    ensures Mirrors(map[]) == DEFAULT_STATE
  {
    NoMirrors(map[], |STATE_KEYS|);
  }

  lemma {:induction false} NoMirrors(e: Entries, n: nat)
    requires n <= |STATE_KEYS| && e == map[]
    ensures MirrorsUpTo(DEFAULT_STATE, e, n) == DEFAULT_STATE
  {
    hide STATE_KEYS, DEFAULT_STATE;
    if n == 0 {
    } else {
      NoMirrors(e, n - 1);
    }
  }

  lemma UpdateAtomic(m: Memory, e: Entries, updates: Updates, refused: set<string>, w: Entries)
    requires Complete(m.state) && ValidUpdates(updates)
    requires var c := Committed(e, m, Overlay(m.state, updates));
             w in [c] + MirrorWrites(c, updates, refused)
    ensures HasSnapshot(w) && SnapshotState(w) == Overlay(m.state, updates)
    ensures SnapshotRevision(w) == m.revision + 1
    ensures Complete(Overlay(m.state, updates))
  {
    hide STATE_KEYS, Key, DEFAULT_STATE;
    var next := Overlay(m.state, updates);
    OverlayKeys(m.state, updates);
    ReloadCommitted(e, m.revision + 1, next);
    MirrorWritesKeepSnapshot(Committed(e, m, next), updates, refused);
  }

  /** The one operation that leaves memory behind: a clear whose database part worked and whose rest did not. */
  predicate HalfCleared(op: Op) { op.ClearAll? && op.databaseWorks && !op.localWorks }

  /**
   * Exactly when memory and storage agree after an operation: when a committed write made them so,
   * or nothing was written and they agreed before, or a half-done clear met a memory of defaults.
   */
  lemma AgreementAfter(m: Memory, e: Entries, op: Op)
    requires Complete(m.state) && ValidOp(op)
    ensures var r := Apply(m, e, op);
            Agrees(r.memory, Final(e, r.writes)) <==>
              if HalfCleared(op) then m.state == DEFAULT_STATE
              else r.writes != [] || Agrees(m, e)
  {
    var r := Apply(m, e, op);
    if r.writes != [] {
      CrashAtomic(m, e, op, Final(e, r.writes));
    }
  }

  /** Revisions count committed updates: stored revision and memory revision stay equal under updates. */
  lemma RevisionAfter(m: Memory, e: Entries, op: Op)
    requires Complete(m.state) && ValidOp(op) && !op.ClearAll?
    requires Apply(m, e, op).writes != []
    ensures var r := Apply(m, e, op);
            && HasSnapshot(Final(e, r.writes))
            && SnapshotRevision(Final(e, r.writes)) == r.memory.revision == m.revision + 1
  {
    var r := Apply(m, e, op);
    match op
    case SetOne(key, value, _, _, refused) => UpdateAtomic(m, e, [(key, value)], refused, Final(e, r.writes));
    case Batch(updates, _, refused) => UpdateAtomic(m, e, updates, refused, Final(e, r.writes));
  }

  // ---- Loading ----

  /** A successful load agrees with storage afterwards, and migrating the mirrors changes no reload. */
  lemma InitializeAgrees(e: Entries, snapshotWorks: bool)
    ensures var r := Initialize(e, snapshotWorks);
            && (r.ok <==> HasSnapshot(e) || (MirrorsReadable(e) && snapshotWorks))
            && (r.ok ==> Agrees(r.memory, Final(e, r.writes)) && Complete(r.memory.state) && r.memory.initialized)
            && Reload(Final(e, r.writes)) == Reload(e)
            && forall w :: w in r.writes ==> Reload(w) == Reload(e)
  {
    hide STATE_KEYS, DEFAULT_STATE, Key;
    MirrorKeys(e, |STATE_KEYS|);
    ReloadCommitted(e, 1, Mirrors(e));
    DefaultKeys();
  }

  // ---- Runs ----

  datatype World = World(memory: Memory, entries: Entries)

  function Step(s: World, op: Op): World {
    var r := Apply(s.memory, s.entries, op);
    World(r.memory, Final(s.entries, r.writes))
  }

  function Run(s: World, ops: seq<Op>): World {
    if ops == [] then s else Step(Run(s, ops[..|ops| - 1]), ops[|ops| - 1])
  }

  predicate ValidOps(ops: seq<Op>) { forall i :: 0 <= i < |ops| ==> ValidOp(ops[i]) }

  lemma StepComplete(s: World, op: Op)
    requires Complete(s.memory.state) && ValidOp(op)
    ensures Complete(Step(s, op).memory.state)
  {
    var r := Apply(s.memory, s.entries, op);
    if r.writes != [] {
      CrashAtomic(s.memory, s.entries, op, Final(s.entries, r.writes));
    }
  }

  lemma {:induction false} RunComplete(s: World, ops: seq<Op>)
    requires Complete(s.memory.state) && ValidOps(ops)
    ensures Complete(Run(s, ops).memory.state)
  {
    if ops == [] {
    } else {
      RunComplete(s, ops[..|ops| - 1]);
      StepComplete(Run(s, ops[..|ops| - 1]), ops[|ops| - 1]);
    }
  }

  /**
   * Over every run after a successful load: at every crash point of every operation the reload is
   * the reload before that operation or the intended state after it; never a mixture.
   */
  lemma RunCrashAtomic(start: Entries, snapshotWorks: bool, ops: seq<Op>, op: Op, w: Entries)
    requires Initialize(start, snapshotWorks).ok && ValidOps(ops) && ValidOp(op)
    requires var s := Run(World(Initialize(start, snapshotWorks).memory,
                                Final(start, Initialize(start, snapshotWorks).writes)), ops);
             w == s.entries || w in Apply(s.memory, s.entries, op).writes
    ensures var s := Run(World(Initialize(start, snapshotWorks).memory,
                               Final(start, Initialize(start, snapshotWorks).writes)), ops);
            || Reload(w) == Reload(s.entries)
            || Reload(w) == Some(if op.ClearAll? then DEFAULT_STATE else Apply(s.memory, s.entries, op).memory.state)
  {
    hide STATE_KEYS, DEFAULT_STATE, Apply, Initialize, Reload;
    InitializeAgrees(start, snapshotWorks);
    var s0 := World(Initialize(start, snapshotWorks).memory, Final(start, Initialize(start, snapshotWorks).writes));
    RunComplete(s0, ops);
    var s := Run(s0, ops);
    if w != s.entries {
      CrashAtomic(s.memory, s.entries, op, w);
    }
  }

  /** Runs without a half-done clear end with storage and memory agreeing. */
  lemma {:induction false} RunAgrees(s: World, ops: seq<Op>)
    requires Complete(s.memory.state) && ValidOps(ops) && Agrees(s.memory, s.entries)
    requires forall i :: 0 <= i < |ops| ==> !HalfCleared(ops[i])
    ensures Agrees(Run(s, ops).memory, Run(s, ops).entries)
  {
    hide Apply, Agrees;
    if ops == [] {
    } else {
      var before := Run(s, ops[..|ops| - 1]);
      RunAgrees(s, ops[..|ops| - 1]);
      RunComplete(s, ops[..|ops| - 1]);
      AgreementAfter(before.memory, before.entries, ops[|ops| - 1]);
    }
  }

  // ---- The compatibility mirrors ----

  /** The mirrors alone load to the memory state. */
  predicate Mirrored(m: Memory, e: Entries) { MirrorsReadable(e) && Mirrors(e) == m.state }

  function MirrorValue(e: Entries, name: string): Json
    requires name in STATE_KEYS
  {
    DefaultKeys();
    if Key(name) in e && e[Key(name)].Parsed? then e[Key(name)].value else DEFAULT_STATE[name]
  }

  lemma {:induction false} MirrorAt(e: Entries, n: nat, name: string)
    requires n <= |STATE_KEYS| && name in STATE_KEYS
    ensures name in MirrorsUpTo(DEFAULT_STATE, e, n)
    ensures MirrorsUpTo(DEFAULT_STATE, e, n)[name] ==
              if name in STATE_KEYS[..n] then MirrorValue(e, name) else DEFAULT_STATE[name]
  {
    hide STATE_KEYS, DEFAULT_STATE, Key;
    DefaultKeys();
    MirrorKeys(e, n);
    if n == 0 {
    } else {
      MirrorAt(e, n - 1, name);
      assert STATE_KEYS[..n] == STATE_KEYS[..n - 1] + [STATE_KEYS[n - 1]];
    }
  }

  lemma MirrorsAre(e: Entries, state: State)
    requires Complete(state) && OnlyStateKeys(state)
    ensures Mirrors(e) == state <==> forall name :: name in STATE_KEYS ==> MirrorValue(e, name) == state[name]
  {
    hide STATE_KEYS, DEFAULT_STATE, Key, MirrorValue, MirrorsUpTo;
    MirrorKeys(e, |STATE_KEYS|);
    assert STATE_KEYS[..|STATE_KEYS|] == STATE_KEYS;
    forall name | name in STATE_KEYS
      ensures Mirrors(e)[name] == MirrorValue(e, name)
    {
      MirrorAt(e, |STATE_KEYS|, name);
    }
    if forall name :: name in STATE_KEYS ==> MirrorValue(e, name) == state[name] {
      assert Mirrors(e) == state;
    }
  }

  predicate Updated(updates: Updates, name: string) { exists i :: 0 <= i < |updates| && updates[i].0 == name }

  lemma {:induction false} OverlayAt(state: State, updates: Updates, name: string)
    requires ValidUpdates(updates)
    ensures Updated(updates, name) ==> name in Overlay(state, updates)
    ensures !Updated(updates, name) ==>
              (name in Overlay(state, updates) <==> name in state)
              && (name in state ==> Overlay(state, updates)[name] == state[name])
    ensures forall i :: 0 <= i < |updates| && updates[i].0 == name ==> Overlay(state, updates)[name] == updates[i].1
    ensures OnlyStateKeys(state) ==> OnlyStateKeys(Overlay(state, updates))
    decreases |updates|
  {
    hide STATE_KEYS;
    if updates == [] {
    } else {
      var rest := updates[1..];
      assert forall i :: 0 <= i < |rest| ==> rest[i] == updates[i + 1];
      assert updates[0].0 in STATE_KEYS;
      OverlayAt(state[updates[0].0 := updates[0].1], rest, name);
      assert Updated(updates, name) <==> updates[0].0 == name || Updated(rest, name);
      assert forall i :: 0 < i < |updates| ==> updates[i] == rest[i - 1];
    }
  }

  // ---- What an update does to memory ----

  /** `!==` finds nothing to do: the key holds this very value, and the value is no object or array. */
  predicate Held(state: State, key: string, value: Json) {
    key in state && state[key] == value && !value.JObject? && !value.JArray?
  }

  predicate AllHeld(state: State, updates: Updates) {
    forall i :: 0 <= i < |updates| ==> Held(state, updates[i].0, updates[i].1)
  }

  /** Every update is in the state, and every other key is as it was before. */
  ghost predicate Holds(before: State, after: State, updates: Updates) {
    && (forall i :: 0 <= i < |updates| ==> updates[i].0 in after && after[updates[i].0] == updates[i].1)
    && (forall name :: !Updated(updates, name) ==>
          && (name in after <==> name in before)
          && (name in before ==> after[name] == before[name]))
  }

  lemma OverlayHolds(state: State, updates: Updates)
    requires ValidUpdates(updates)
    ensures Holds(state, Overlay(state, updates), updates)
  {
    hide STATE_KEYS, Overlay;
    forall i | 0 <= i < |updates|
      ensures updates[i].0 in Overlay(state, updates) && Overlay(state, updates)[updates[i].0] == updates[i].1
    {
      OverlayAt(state, updates, updates[i].0);
    }
    forall name | !Updated(updates, name)
      ensures name in Overlay(state, updates) <==> name in state
      ensures name in state ==> Overlay(state, updates)[name] == state[name]
    {
      OverlayAt(state, updates, name);
    }
  }

  /** The changed keys are those of the updates not already held, each once and in the order of the updates. */
  lemma {:induction false} ChangedExactly(state: State, updates: Updates)
    requires ValidUpdates(updates)
    ensures forall i :: 0 <= i < |updates| ==>
              (updates[i].0 in ChangedKeys(state, updates) <==> !Held(state, updates[i].0, updates[i].1))
    ensures forall key :: key in ChangedKeys(state, updates) ==> Updated(updates, key)
    ensures Distinct(ChangedKeys(state, updates))
    ensures forall k :: 0 <= k <= |updates| ==> ChangedKeys(state, updates[..k]) <= ChangedKeys(state, updates)
    decreases |updates|
  {
    hide STATE_KEYS, Held;
    if updates == [] {
    } else {
      var rest := updates[1..];
      assert forall i :: 0 <= i < |rest| ==> rest[i] == updates[i + 1];
      ChangedExactly(state, rest);
      DiffersIs(state, updates[0]);
      assert forall i :: 0 < i < |updates| ==> updates[i] == rest[i - 1];
      assert updates[0].0 !in ChangedKeys(state, rest);
      assert forall key :: Updated(rest, key) ==> Updated(updates, key);
      assert Updated(updates, updates[0].0);
      forall k | 0 < k <= |updates|
        ensures ChangedKeys(state, updates[..k]) <= ChangedKeys(state, updates)
      {
        assert updates[..k][1..] == rest[..k - 1] && updates[..k][0] == updates[0];
      }
    }
  }

  lemma DiffersIs(state: State, u: (string, Json))
    ensures Differs(state, u) <==> !Held(state, u.0, u.1)
  {
  }

  lemma NothingChanged(state: State, updates: Updates)
    requires ValidUpdates(updates)
    ensures ChangedKeys(state, updates) == [] <==> AllHeld(state, updates)
    ensures AllHeld(state, updates) ==> Holds(state, state, updates)
  {
    hide STATE_KEYS, ChangedKeys;
    ChangedExactly(state, updates);
    if ChangedKeys(state, updates) != [] {
      assert ChangedKeys(state, updates)[0] in ChangedKeys(state, updates);
      var i :| 0 <= i < |updates| && updates[i].0 == ChangedKeys(state, updates)[0];
      assert !Held(state, updates[i].0, updates[i].1);
    }
    if ChangedKeys(state, updates) == [] {
      forall i | 0 <= i < |updates|
        ensures Held(state, updates[i].0, updates[i].1)
      {
        assert updates[i].0 !in ChangedKeys(state, updates);
      }
    }
  }

  /**
   * A batch that succeeds leaves every update in memory and every other key alone; it writes exactly when
   * some update is not already held and the snapshot is accepted, and fails, changing nothing, exactly when
   * one is not and the snapshot is refused.
   */
  lemma BatchHolds(m: Memory, e: Entries, updates: Updates, works: bool, refused: set<string>)
    requires ValidUpdates(updates)
    ensures var r := Apply(m, e, Batch(updates, works, refused));
            && (r.ok <==> works || AllHeld(m.state, updates))
            && (r.ok ==> Holds(m.state, r.memory.state, updates))
            && (r.writes != [] <==> works && !AllHeld(m.state, updates))
            && (r.writes == [] ==> r.memory == m)
  {
    hide STATE_KEYS, Overlay, ChangedKeys, MirrorWrites, AllHeld, Holds, Committed;
    NothingChanged(m.state, updates);
    OverlayHolds(m.state, updates);
  }

  /** The same for a single update, which an object also skips when it is the very reference memory holds. */
  lemma SetHolds(m: Memory, e: Entries, key: string, value: Json, same: bool, works: bool, refused: set<string>)
    requires key in STATE_KEYS
    ensures var r := Apply(m, e, SetOne(key, value, same, works, refused));
            var skipped := key in m.state && m.state[key] == value && (same || !(value.JObject? || value.JArray?));
            && (r.ok <==> works || skipped)
            && (r.ok ==> Holds(m.state, r.memory.state, [(key, value)]))
            && (r.writes != [] <==> works && !skipped)
            && (r.writes == [] ==> r.memory == m)
  {
    hide STATE_KEYS, Overlay, MirrorWrites, Committed;
    OverlayOne(m.state, key, value);
    assert forall name :: Updated([(key, value)], name) <==> name == key by {
      assert [(key, value)][0].0 == key;
    }
  }

  /**
   * A complete clear leaves the defaults at revision zero and an empty database, as a fresh instance would find
   * them: locked, not connected, without wallet, address or key.
   */
  lemma ClearResets(m: Memory, e: Entries)
    ensures var r := Apply(m, e, ClearAll(true, true));
            && r.ok && r.memory == Memory(DEFAULT_STATE, 0, m.initialized)
            && Final(e, r.writes) == map[] && Initialize(Final(e, r.writes), true).memory.state == r.memory.state
            && Complete(r.memory.state) && LockedAndEmpty(r.memory.state)
  {
    hide STATE_KEYS, DEFAULT_STATE, LockedAndEmpty;
    EmptyReload();
    DefaultKeys();
    DefaultsLocked();
  }

  predicate LockedAndEmpty(state: State)
    requires Complete(state)
  {
    && state["locked"] == JBool(true) && state["hasWallet"] == JBool(false) && state["isConnected"] == JBool(false)
    && state["address"] == JNull == state["pubkey"] && state["wallets"] == JArray([])
  }

  lemma DefaultsLocked()
    ensures Complete(DEFAULT_STATE) && LockedAndEmpty(DEFAULT_STATE)
  {
    hide STATE_KEYS, DEFAULT_STATE;
    DefaultKeys();
    assert DEFAULT_STATE["locked"] == JBool(true) && DEFAULT_STATE["hasWallet"] == JBool(false) by { DefaultFlags(); }
    assert DEFAULT_STATE["address"] == JNull == DEFAULT_STATE["pubkey"] by { DefaultAddress(); }
    DefaultRest();
  }

  lemma DefaultFlags()
    ensures "locked" in DEFAULT_STATE && DEFAULT_STATE["locked"] == JBool(true)
    ensures "hasWallet" in DEFAULT_STATE && DEFAULT_STATE["hasWallet"] == JBool(false)
  {
    hide STATE_KEYS;
  }

  lemma DefaultAddress()
    ensures "address" in DEFAULT_STATE && DEFAULT_STATE["address"] == JNull
    ensures "pubkey" in DEFAULT_STATE && DEFAULT_STATE["pubkey"] == JNull
  {
    hide STATE_KEYS;
  }

  lemma DefaultRest()
    ensures "isConnected" in DEFAULT_STATE && DEFAULT_STATE["isConnected"] == JBool(false)
    ensures "wallets" in DEFAULT_STATE && DEFAULT_STATE["wallets"] == JArray([])
  {
    hide STATE_KEYS;
  }

  /** All mirror writes working: an updated key's mirror holds its new value, the others are untouched. */
  lemma {:induction false} MirrorWritesAt(e: Entries, updates: Updates, name: string)
    requires ValidUpdates(updates) && name in STATE_KEYS
    ensures var f := Final(e, MirrorWrites(e, updates, {}));
            && (forall i :: 0 <= i < |updates| && updates[i].0 == name ==>
                  Key(name) in f && f[Key(name)] == Parsed(updates[i].1))
            && (!Updated(updates, name) ==>
                  && (Key(name) in f <==> Key(name) in e)
                  && (Key(name) in e ==> f[Key(name)] == e[Key(name)]))
    decreases |updates|
  {
    hide STATE_KEYS, Key;
    if updates == [] {
    } else {
      var rest := updates[1..];
      assert forall i :: 0 <= i < |rest| ==> rest[i] == updates[i + 1];
      assert updates[0].0 in STATE_KEYS;
      var next := e[Key(updates[0].0) := Parsed(updates[0].1)];
      MirrorWritesAt(next, rest, name);
      assert Final(e, MirrorWrites(e, updates, {})) == Final(next, MirrorWrites(next, rest, {}));
      assert Updated(updates, name) <==> updates[0].0 == name || Updated(rest, name);
      assert forall i :: 0 < i < |updates| ==> updates[i] == rest[i - 1];
      if Key(updates[0].0) == Key(name) {
        KeyInjective(updates[0].0, name);
      }
    }
  }

  /**
   * Exactly when the mirrors still spell out memory after a committed update whose mirror writes all
   * worked: when they did so before on every key the update leaves alone.
   */
  lemma MirroredAfter(m: Memory, e: Entries, updates: Updates)
    requires Complete(m.state) && OnlyStateKeys(m.state) && ValidUpdates(updates)
    ensures var r := Update(m, e, updates, true, true, {});
            && OnlyStateKeys(r.memory.state)
            && (Mirrors(Final(e, r.writes)) == r.memory.state <==>
                  forall name :: name in STATE_KEYS && !Updated(updates, name) ==>
                      MirrorValue(e, name) == m.state[name])
  {
    hide STATE_KEYS, DEFAULT_STATE, Key, MirrorWrites, Mirrors, Overlay, SnapshotDocument;
    var r := Update(m, e, updates, true, true, {});
    var c := Committed(e, m, Overlay(m.state, updates));
    var f := Final(e, r.writes);
    assert f == Final(c, MirrorWrites(c, updates, {}));
    OverlayKeys(m.state, updates);
    OverlayAt(m.state, updates, "");
    forall name | name in STATE_KEYS
      ensures Updated(updates, name) ==> MirrorValue(f, name) == r.memory.state[name]
      ensures !Updated(updates, name) ==>
                MirrorValue(f, name) == MirrorValue(e, name) && r.memory.state[name] == m.state[name]
    {
      MirrorWritesAt(c, updates, name);
      OverlayAt(m.state, updates, name);
      MirrorIsNotSnapshot(name);
    }
    MirrorsAre(f, r.memory.state);
  }

  /** The mirrors the operation writes all get through. */
  predicate MirrorsWork(op: Op) {
    match op
    case SetOne(_, _, _, _, refused) => refused == {}
    case Batch(_, _, refused) => refused == {}
    case ClearAll(_, _) => !HalfCleared(op)
  }

  lemma ReadableAfter(e: Entries, updates: Updates)
    requires ValidUpdates(updates) && MirrorsReadable(e)
    ensures MirrorsReadable(Final(e, MirrorWrites(e, updates, {})))
  {
    hide STATE_KEYS, Key, MirrorWrites;
    var f := Final(e, MirrorWrites(e, updates, {}));
    forall i | 0 <= i < |STATE_KEYS| && Key(STATE_KEYS[i]) in f
      ensures f[Key(STATE_KEYS[i])].Parsed?
    {
      MirrorWritesAt(e, updates, STATE_KEYS[i]);
    }
  }

  lemma CommittedKeepsMirrors(e: Entries, m: Memory, next: State)
    requires MirrorsReadable(e)
    ensures MirrorsReadable(Committed(e, m, next))
  {
    hide STATE_KEYS, Key, SnapshotDocument;
    forall i | 0 <= i < |STATE_KEYS|
      ensures Key(STATE_KEYS[i]) != SNAPSHOT_KEY
    {
      MirrorIsNotSnapshot(STATE_KEYS[i]);
    }
  }

  lemma MirroredUpdate(m: Memory, e: Entries, updates: Updates, changes: bool, snapshotWorks: bool)
    requires Complete(m.state) && OnlyStateKeys(m.state) && ValidUpdates(updates) && Mirrored(m, e)
    ensures var r := Update(m, e, updates, changes, snapshotWorks, {});
            Mirrored(r.memory, Final(e, r.writes)) && OnlyStateKeys(r.memory.state)
  {
    hide STATE_KEYS, DEFAULT_STATE, Key, MirrorWrites, Mirrors, MirrorsReadable, Overlay, Committed;
    if changes && snapshotWorks {
      var c := Committed(e, m, Overlay(m.state, updates));
      var r := Update(m, e, updates, true, true, {});
      assert Final(e, r.writes) == Final(c, MirrorWrites(c, updates, {}));
      CommittedKeepsMirrors(e, m, Overlay(m.state, updates));
      ReadableAfter(c, updates);
      MirrorsAre(e, m.state);
      MirroredAfter(m, e, updates);
    }
  }

  lemma EmptyMirrored(s: World, op: Op)
    requires op == ClearAll(true, true)
    ensures Mirrored(Step(s, op).memory, Step(s, op).entries) && OnlyStateKeys(Step(s, op).memory.state)
  {
    hide STATE_KEYS, DEFAULT_STATE, Key, Mirrors;
    EmptyReload();
    DefaultKeys();
  }

  lemma MirroredStep(s: World, op: Op)
    requires Complete(s.memory.state) && OnlyStateKeys(s.memory.state) && ValidOp(op) && MirrorsWork(op)
    requires Mirrored(s.memory, s.entries)
    ensures Mirrored(Step(s, op).memory, Step(s, op).entries) && OnlyStateKeys(Step(s, op).memory.state)
  {
    hide Mirrored, Update;
    match op
    case SetOne(key, value, same, works, _) =>
      MirroredUpdate(s.memory, s.entries, [(key, value)], !IdenticalTo(s.memory, key, value, same), works);
    case Batch(updates, works, _) =>
      MirroredUpdate(s.memory, s.entries, updates, ChangedKeys(s.memory.state, updates) != [], works);
    case ClearAll(databaseWorks, _) =>
      if databaseWorks {
        EmptyMirrored(s, op);
      }
  }

  lemma {:induction false} RunMirrored(s: World, ops: seq<Op>)
    requires Complete(s.memory.state) && OnlyStateKeys(s.memory.state) && ValidOps(ops)
    requires Mirrored(s.memory, s.entries)
    requires forall i :: 0 <= i < |ops| ==> MirrorsWork(ops[i])
    ensures Mirrored(Run(s, ops).memory, Run(s, ops).entries) && OnlyStateKeys(Run(s, ops).memory.state)
  {
    hide Mirrored, Step, OnlyStateKeys, Complete;
    if ops == [] {
    } else {
      RunMirrored(s, ops[..|ops| - 1]);
      RunComplete(s, ops[..|ops| - 1]);
      MirroredStep(Run(s, ops[..|ops| - 1]), ops[|ops| - 1]);
    }
  }

  /**
   * From empty or legacy-only storage, while every mirror write works and no clear stops half way, the
   * mirrors alone load to the very state the snapshot reloads to, after every serial run.
   */
  lemma MirrorsMatchSnapshot(start: Entries, ops: seq<Op>)
    requires !HasSnapshot(start) && Initialize(start, true).ok && ValidOps(ops)
    requires forall i :: 0 <= i < |ops| ==> MirrorsWork(ops[i])
    ensures var s := Run(World(Initialize(start, true).memory, Final(start, Initialize(start, true).writes)), ops);
            && Reload(s.entries) == Some(s.memory.state)
            && MirrorsReadable(s.entries)
            && Mirrors(s.entries) == s.memory.state
  {
    hide STATE_KEYS, Reload, Mirrors, MirrorsReadable, Run, Initialize, Complete, OnlyStateKeys, ValidOp;
    var s0 := World(Initialize(start, true).memory, Final(start, Initialize(start, true).writes));
    InitializeAgrees(start, true);
    InitiallyMirrored(start);
    RunAgrees(s0, ops);
    RunMirrored(s0, ops);
  }

  lemma InitiallyMirrored(start: Entries)
    requires !HasSnapshot(start) && Initialize(start, true).ok
    ensures Mirrored(Initialize(start, true).memory, Final(start, Initialize(start, true).writes))
    ensures OnlyStateKeys(Initialize(start, true).memory.state)
  {
    hide STATE_KEYS, DEFAULT_STATE, Key, MirrorsUpTo, MirrorsReadable, HasSnapshot, Committed;
    MirrorKeys(start, |STATE_KEYS|);
    MigrationKeepsMirrors(start);
  }

  lemma MigrationKeepsMirrors(e: Entries)
    requires !HasSnapshot(e) && MirrorsReadable(e)
    ensures var f := Final(e, Initialize(e, true).writes);
            MirrorsReadable(f) && Mirrors(f) == Mirrors(e)
  {
    hide STATE_KEYS, DEFAULT_STATE, Key, MirrorsUpTo, SnapshotDocument;
    var m := Memory(Mirrors(e), 0, false);
    CommittedKeepsMirrors(e, m, Mirrors(e));
    MirrorKeys(e, |STATE_KEYS|);
    var f := Committed(e, m, Mirrors(e));
    forall name | name in STATE_KEYS
      ensures MirrorValue(f, name) == MirrorValue(e, name)
    {
      MirrorIsNotSnapshot(name);
    }
    MirrorsAre(e, Mirrors(e));
    MirrorsAre(f, Mirrors(e));
  }

  /**
   * The exception, exactly: after a clear that emptied the database and then threw, an update makes
   * the mirrors differ from memory and snapshot precisely when memory held a non-default value under
   * a key the update does not write.
   */
  lemma HalfClearThenUpdate(m: Memory, e: Entries, updates: Updates)
    requires Complete(m.state) && OnlyStateKeys(m.state) && ValidUpdates(updates)
    ensures var c := Apply(m, e, ClearAll(true, false));
            var r := Update(c.memory, Final(e, c.writes), updates, true, true, {});
            var f := Final(Final(e, c.writes), r.writes);
            && Reload(f) == Some(r.memory.state)
            && (Mirrors(f) != Reload(f).value <==>
                  exists name :: name in STATE_KEYS && !Updated(updates, name) && m.state[name] != DEFAULT_STATE[name])
  {
    hide STATE_KEYS, DEFAULT_STATE, Key, Mirrors, MirrorWrites, Overlay;
    var c := Apply(m, e, ClearAll(true, false));
    var r := Update(m, map[], updates, true, true, {});
    UpdateAtomic(m, map[], updates, {}, Final(map[], r.writes));
    MirroredAfter(m, map[], updates);
    DefaultKeys();
  }
}
