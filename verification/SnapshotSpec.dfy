// The snapshot store of pwa/lib/walletStorage.ts as functions on stored entries: what a
// fresh instance loads, and what each operation writes, one durable write at a time.

module SnapshotSpec {
  import opened Basics
  import opened JsonValues

  type Entries = map<string, Document>
  type State = map<string, Json>

  const STATE_KEYS: seq<string> := [
    "env", "language", "locked", "hasWallet", "address", "isConnected", "network", "chain", "walletId",
    "accountIndex", "balance", "pubkey", "wallets", "autoLockTime", "hideBalance"]

  const DEFAULT_STATE: State := map[
    "env" := JString("prd"), "language" := JString("en"), "locked" := JBool(true), "hasWallet" := JBool(false),
    "address" := JNull, "isConnected" := JBool(false), "network" := JString("livenet"), "chain" := JString("btc"),
    "walletId" := JString(""), "accountIndex" := JNumber(0),
    "balance" := JObject(map["confirmed" := JNumber(0), "unconfirmed" := JNumber(0), "total" := JNumber(0)]),
    "pubkey" := JNull, "wallets" := JArray([]), "autoLockTime" := JString("5"), "hideBalance" := JBool(false)]

  /** getStorageKey for the local storage type. */
  function Key(name: string): string { "local:wallet_" + name }

  const SNAPSHOT_KEY := Key("state_snapshot_v1")

  lemma KeyInjective(a: string, b: string)
    requires Key(a) == Key(b)
    ensures a == b
  {
    var p := "local:wallet_";
    assert (p + a)[|p|..] == a && (p + b)[|p|..] == b;
  }

  lemma MirrorIsNotSnapshot(name: string)
    requires name in STATE_KEYS
    ensures Key(name) != SNAPSHOT_KEY
  {
    if Key(name) == SNAPSHOT_KEY {
      KeyInjective(name, "state_snapshot_v1");
      NamesDiffer();
    }
  }

  lemma NamesDiffer()
    ensures "state_snapshot_v1" !in STATE_KEYS
  {
    assert |"state_snapshot_v1"| == 17;
    forall i | 0 <= i < |STATE_KEYS|
      ensures |STATE_KEYS[i]| < 17
    {
    }
  }

  lemma DefaultKeys()
    ensures forall name :: name in DEFAULT_STATE <==> name in STATE_KEYS
  {
  }

  // ---- Loading ----

  function SnapshotDocument(revision: int, state: State): Document {
    Parsed(JObject(map["version" := JNumber(1), "revision" := JNumber(revision), "state" := JObject(state)]))
  }

  /** version === 1, a truthy state and a numeric revision. */
  predicate ValidSnapshot(d: Document) {
    && d.Parsed? && d.value.JObject?
    && Field(d.value.fields, "version") == JNumber(1)
    && Truthy(Field(d.value.fields, "state"))
    && Field(d.value.fields, "revision").JNumber?
  }

  predicate HasSnapshot(e: Entries) { SNAPSHOT_KEY in e && ValidSnapshot(e[SNAPSHOT_KEY]) }

  /** Spreading the stored state over the defaults. */
  function Spread(j: Json): State { if j.JObject? then DEFAULT_STATE + j.fields else DEFAULT_STATE }

  function SnapshotState(e: Entries): State
    requires HasSnapshot(e)
  {
    Spread(e[SNAPSHOT_KEY].value.fields["state"])
  }

  function SnapshotRevision(e: Entries): int
    requires HasSnapshot(e)
  {
    e[SNAPSHOT_KEY].value.fields["revision"].n
  }

  predicate MirrorsReadable(e: Entries) {
    forall i :: 0 <= i < |STATE_KEYS| && Key(STATE_KEYS[i]) in e ==> e[Key(STATE_KEYS[i])].Parsed?
  }

  /** The stored mirrors of the first n keys over a base state. */
  function MirrorsUpTo(base: State, e: Entries, n: nat): State
    requires n <= |STATE_KEYS|
  {
    if n == 0 then base
    else
      var k := Key(STATE_KEYS[n - 1]);
      var before := MirrorsUpTo(base, e, n - 1);
      if k in e && e[k].Parsed? then before[STATE_KEYS[n - 1] := e[k].value] else before
  }

  /** What the per-key mirrors alone load to. */
  function Mirrors(e: Entries): State { MirrorsUpTo(DEFAULT_STATE, e, |STATE_KEYS|) }

  /** The state a fresh instance ends up with; None when a mirror it needs does not parse. */
  function Reload(e: Entries): Option<State> {
    if HasSnapshot(e) then Some(SnapshotState(e))
    else if MirrorsReadable(e) then Some(Mirrors(e))
    else None
  }

  // ---- Operations ----

  datatype Memory = Memory(state: State, revision: int, initialized: bool)

  type Updates = seq<(string, Json)>

  predicate ValidUpdates(updates: Updates) {
    && (forall i :: 0 <= i < |updates| ==> updates[i].0 in STATE_KEYS)
    && (forall i, j :: 0 <= i < j < |updates| ==> updates[i].0 != updates[j].0)
  }

  function Overlay(state: State, updates: Updates): State
    decreases |updates|
  {
    if updates == [] then state else Overlay(state[updates[0].0 := updates[0].1], updates[1..])
  }

  lemma OverlayOne(state: State, key: string, value: Json)
    ensures Overlay(state, [(key, value)]) == state[key := value]
  {
    assert [(key, value)][1..] == [];
  }

  /** `!==` against a fresh clone: objects always differ, primitives by value. */
  predicate Differs(state: State, u: (string, Json)) { u.0 !in state || !Primitive(u.1) || state[u.0] != u.1 }

  function ChangedKeys(state: State, updates: Updates): seq<string> {
    if updates == [] then []
    else (if Differs(state, updates[0]) then [updates[0].0] else []) + ChangedKeys(state, updates[1..])
  }

  /** A run of mirror writes in call order; a refused write leaves the entries alone. */
  function MirrorWrites(e: Entries, updates: Updates, refused: set<string>): seq<Entries>
    decreases |updates|
  {
    if updates == [] then []
    else if updates[0].0 in refused then MirrorWrites(e, updates[1..], refused)
    else
      var next := e[Key(updates[0].0) := Parsed(updates[0].1)];
      [next] + MirrorWrites(next, updates[1..], refused)
  }

  function Committed(e: Entries, m: Memory, next: State): Entries {
    e[SNAPSHOT_KEY := SnapshotDocument(m.revision + 1, next)]
  }

  /** The outcome of an operation: memory after it, and the entries after each durable write in order. */
  datatype Effect = Effect(ok: bool, memory: Memory, writes: seq<Entries>)

  /** Snapshot first; the mirrors follow only a committed snapshot, and their failures are swallowed. */
  function Update(m: Memory, e: Entries, updates: Updates, changes: bool, snapshotWorks: bool,
                  refused: set<string>): Effect {
    if !changes then Effect(true, m, [])
    else if !snapshotWorks then Effect(false, m, [])
    else
      var next := Overlay(m.state, updates);
      var committed := Committed(e, m, next);
      Effect(true, m.(state := next, revision := m.revision + 1),
             [committed] + MirrorWrites(committed, updates, refused))
  }

  function Clear(m: Memory, databaseWorks: bool, localWorks: bool): Effect {
    if !databaseWorks then Effect(false, m, [])
    else if !localWorks then Effect(false, m, [map[]])
    else Effect(true, m.(state := DEFAULT_STATE, revision := 0), [map[]])
  }

  function InitializeFrom(m: Memory, e: Entries, snapshotWorks: bool): Effect {
    if m.initialized then Effect(true, m, [])
    else if HasSnapshot(e) then Effect(true, Memory(SnapshotState(e), SnapshotRevision(e), true), [])
    else
      var loaded := m.(state := MirrorsUpTo(m.state, e, |STATE_KEYS|));
      if !MirrorsReadable(e) || !snapshotWorks then Effect(false, loaded, [])
      else Effect(true, Memory(loaded.state, m.revision + 1, true), [Committed(e, m, loaded.state)])
  }

  const FRESH := Memory(DEFAULT_STATE, 0, false)

  /** initializeState of a fresh instance. */
  function Initialize(e: Entries, snapshotWorks: bool): Effect { InitializeFrom(FRESH, e, snapshotWorks) }

  datatype Op =
    | SetOne(key: string, value: Json, sameReference: bool, snapshotWorks: bool, refused: set<string>)
    | Batch(updates: Updates, snapshotWorks: bool, refused: set<string>)
    | ClearAll(databaseWorks: bool, localWorks: bool)

  /** `===` on the live value: primitives by value, objects only when the caller passes the same reference. */
  predicate IdenticalTo(m: Memory, key: string, value: Json, sameReference: bool) {
    key in m.state && m.state[key] == value && (Primitive(value) || sameReference)
  }

  predicate ValidOp(op: Op) {
    match op
    case SetOne(key, _, _, _, _) => key in STATE_KEYS
    case Batch(updates, _, _) => ValidUpdates(updates)
    case ClearAll(_, _) => true
  }

  function Apply(m: Memory, e: Entries, op: Op): Effect {
    match op
    case SetOne(key, value, sameReference, snapshotWorks, refused) =>
      Update(m, e, [(key, value)], !IdenticalTo(m, key, value, sameReference), snapshotWorks, refused)
    case Batch(updates, snapshotWorks, refused) =>
      Update(m, e, updates, ChangedKeys(m.state, updates) != [], snapshotWorks, refused)
    case ClearAll(databaseWorks, localWorks) => Clear(m, databaseWorks, localWorks)
  }

  function Final(e: Entries, writes: seq<Entries>): Entries { if writes == [] then e else writes[|writes| - 1] }
}
