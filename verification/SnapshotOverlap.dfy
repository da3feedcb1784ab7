// Overlapping setValue and batchUpdate calls of pwa/lib/walletStorage.ts. One step per synchronous
// stretch: the call itself, its snapshot write landing or failing (in call order), the
// continuation of persistSnapshot, and, some microtasks later, the assignment of memory.

module SnapshotOverlap {
  import opened Basics
  import opened JsonValues
  import opened SnapshotSpec
  import opened SnapshotTheorems

  /** A call awaiting its snapshot write; `seen` counts the calls finished when it took its copy of memory. */
  datatype Call = Call(revision: int, seen: nat, updates: Updates, next: State)

  /** A finished call. */
  datatype Turn = Turn(seen: nat, updates: Updates)

  datatype Session = Session(
    memory: State, revision: int, entries: Entries,
    landed: seq<Call>, resumed: bool, waiting: seq<Call>,
    states: seq<State>, turns: seq<Turn>)

  datatype Event =
    | SetOne(key: string, value: Json, sameReference: bool)
    | Batch(updates: Updates)
    | Commit(works: bool)
    | Resume
    | Finish
    | Mirror(name: string, document: Document)

  predicate ValidEvent(event: Event) {
    match event
    case SetOne(key, _, _) => key in STATE_KEYS
    case Batch(updates) => ValidUpdates(updates)
    case Mirror(name, _) => name in STATE_KEYS
    case _ => true
  }

  function Start(w: Session, updates: Updates): Session
  {
    w.(waiting := w.waiting + [Call(w.revision + 1, |w.turns|, updates, Overlay(w.memory, updates))])
  }

  function Next(w: Session, event: Event): Session
  {
    match event
    case SetOne(key, value, same) =>
      if IdenticalTo(Memory(w.memory, w.revision, true), key, value, same) then w else Start(w, [(key, value)])
    case Batch(updates) => if ChangedKeys(w.memory, updates) == [] then w else Start(w, updates)
    case Commit(works) =>
      if w.waiting == [] then w
      else if !works then w.(waiting := w.waiting[1..])
      else
        var c := w.waiting[0];
        w.(entries := w.entries[SNAPSHOT_KEY := SnapshotDocument(c.revision, c.next)],
           landed := w.landed + [c], waiting := w.waiting[1..])
    case Resume =>
      if w.landed == [] || w.resumed then w else w.(revision := w.landed[0].revision, resumed := true)
    case Finish =>
      if w.landed == [] || !w.resumed then w
      else
        var c := w.landed[0];
        w.(memory := c.next, landed := w.landed[1..], resumed := false,
           states := w.states + [c.next], turns := w.turns + [Turn(c.seen, c.updates)])
    case Mirror(name, document) => w.(entries := w.entries[Key(name) := document])
  }

  function Run(w: Session, events: seq<Event>): Session
  {
    if events == [] then w else Next(Run(w, events[..|events| - 1]), events[|events| - 1])
  }

  predicate ValidEvents(events: seq<Event>) { forall i :: 0 <= i < |events| ==> ValidEvent(events[i]) }

  // ---- The invariant ----

  /** Every in-flight revision is the current one or the next, later calls never below earlier ones. */
  predicate Numbered(w: Session) {
    var calls := w.landed + w.waiting;
    && (forall i :: 0 <= i < |calls| ==> w.revision <= calls[i].revision <= w.revision + 1)
    && (forall i, j :: 0 <= i < j < |calls| ==> calls[i].revision <= calls[j].revision)
    && (w.resumed ==> w.landed != [] && w.landed[0].revision == w.revision)
  }

  /** The stored snapshot is that of the last landed call, or else memory under the current revision. */
  predicate Durable(w: Session) {
    && HasSnapshot(w.entries)
    && SnapshotRevision(w.entries) == (if w.landed == [] then w.revision else w.landed[|w.landed| - 1].revision)
    && SnapshotState(w.entries) == (if w.landed == [] then w.memory else w.landed[|w.landed| - 1].next)
  }

  predicate CallMatches(w: Session, c: Call) {
    && c.seen < |w.states| && ValidUpdates(c.updates)
    && c.next == Overlay(w.states[c.seen], c.updates)
  }

  /** Memory is the last finished state; each finished state overlays the one its call had seen. */
  predicate Recorded(w: Session) {
    && |w.states| == |w.turns| + 1
    && w.memory == w.states[|w.states| - 1]
    && (forall i :: 0 <= i < |w.states| ==> Complete(w.states[i]))
    && (forall i :: 0 <= i < |w.landed| ==> CallMatches(w, w.landed[i]))
    && (forall i :: 0 <= i < |w.waiting| ==> CallMatches(w, w.waiting[i]))
    && (forall i :: 0 <= i < |w.turns| ==> TurnMatches(w, i))
  }

  predicate TurnMatches(w: Session, i: nat)
    requires i < |w.turns| && |w.states| == |w.turns| + 1
  {
    && w.turns[i].seen <= i && ValidUpdates(w.turns[i].updates)
    && w.states[i + 1] == Overlay(w.states[w.turns[i].seen], w.turns[i].updates)
  }

  predicate Invariant(w: Session) { Recorded(w) && Numbered(w) && Durable(w) }

  lemma StartKeeps(w: Session, updates: Updates)
    requires Invariant(w) && ValidUpdates(updates)
    ensures Invariant(Start(w, updates))
  {
    hide Overlay, ValidUpdates, HasSnapshot, SnapshotRevision, SnapshotState;
    var v := Start(w, updates);
    assert v.landed + v.waiting == (w.landed + w.waiting) + [v.waiting[|w.waiting|]];
    assert CallMatches(w, v.waiting[|w.waiting|]);
    SameRecord(w, v);
  }

  lemma LandKeeps(w: Session)
    requires Invariant(w) && w.waiting != []
    ensures Invariant(Next(w, Commit(true)))
    ensures SnapshotRevision(w.entries) <= SnapshotRevision(Next(w, Commit(true)).entries)
  {
    hide Overlay, ValidUpdates, SnapshotDocument, HasSnapshot, SnapshotRevision, SnapshotState, SNAPSHOT_KEY;
    var v := Next(w, Commit(true));
    var c := w.waiting[0];
    var calls := w.landed + w.waiting;
    assert v.landed + v.waiting == calls && calls[|w.landed|] == c;
    assert CallMatches(w, c);
    OverlayKeys(w.states[c.seen], c.updates);
    ReloadCommitted(w.entries, c.revision, c.next);
    if w.landed != [] {
      assert calls[|w.landed| - 1] == w.landed[|w.landed| - 1];
    }
    SameRecord(w, v);
  }

  lemma FailKeeps(w: Session)
    requires Invariant(w) && w.waiting != []
    ensures Invariant(Next(w, Commit(false)))
  {
    hide Overlay, ValidUpdates, Complete, SnapshotDocument, HasSnapshot, SnapshotRevision, SnapshotState, SNAPSHOT_KEY;
    var v := Next(w, Commit(false));
    var n := |w.landed|;
    var calls, rest := w.landed + w.waiting, v.landed + v.waiting;
    assert forall i :: 0 <= i < n ==> rest[i] == calls[i];
    assert forall i :: n <= i < |rest| ==> rest[i] == calls[i + 1];
    SameRecord(w, v);
    assert Numbered(v);
    assert Durable(v);
  }

  /** Steps that only move calls between the queues leave the record as it was. */
  lemma SameRecord(w: Session, v: Session)
    requires Recorded(w) && v.states == w.states && v.turns == w.turns && v.memory == w.memory
    requires forall c :: c in v.landed || c in v.waiting ==> CallMatches(w, c)
    ensures Recorded(v)
  {
    hide Overlay, ValidUpdates, Complete;
    assert forall c :: CallMatches(w, c) ==> CallMatches(v, c);
    forall i | 0 <= i < |v.turns|
      ensures TurnMatches(v, i)
    {
      assert TurnMatches(w, i);
    }
  }

  lemma ResumeKeeps(w: Session)
    requires Invariant(w)
    ensures Invariant(Next(w, Resume))
  {
    hide Overlay, ValidUpdates, Complete, HasSnapshot, SnapshotRevision, SnapshotState;
    var v := Next(w, Resume);
    var calls := w.landed + w.waiting;
    SameRecord(w, v);
    if w.landed != [] {
      assert calls[0] == w.landed[0];
    }
  }

  lemma FinishKeeps(w: Session)
    requires Invariant(w)
    ensures Invariant(Next(w, Finish))
  {
    hide Overlay, ValidUpdates, HasSnapshot, SnapshotRevision, SnapshotState;
    var v := Next(w, Finish);
    if w.landed != [] && w.resumed {
      var c := w.landed[0];
      assert CallMatches(w, c);
      OverlayKeys(w.states[c.seen], c.updates);
      var calls, rest := w.landed + w.waiting, v.landed + v.waiting;
      assert calls[0] == c && forall i :: 0 <= i < |rest| ==> rest[i] == calls[i + 1];
      assert forall d :: CallMatches(w, d) ==> CallMatches(v, d);
      forall i | 0 <= i < |v.turns|
        ensures TurnMatches(v, i)
      {
        if i < |w.turns| {
          assert TurnMatches(w, i);
        }
      }
    }
  }

  lemma MirrorKeeps(w: Session, name: string, document: Document)
    requires Invariant(w) && name in STATE_KEYS
    ensures Invariant(Next(w, Mirror(name, document)))
    ensures SnapshotRevision(Next(w, Mirror(name, document)).entries) == SnapshotRevision(w.entries)
  {
    hide Overlay, ValidUpdates, STATE_KEYS, Key, SNAPSHOT_KEY, Complete;
    MirrorIsNotSnapshot(name);
    var v := Next(w, Mirror(name, document));
    assert v.entries[SNAPSHOT_KEY] == w.entries[SNAPSHOT_KEY];
    SameRecord(w, v);
  }

  /** Every step keeps the invariant, and no step lowers the stored revision. */
  lemma StepKeeps(w: Session, event: Event)
    requires Invariant(w) && ValidEvent(event)
    ensures Invariant(Next(w, event))
    ensures SnapshotRevision(w.entries) <= SnapshotRevision(Next(w, event).entries)
  {
    hide Recorded, Numbered, SnapshotRevision, SnapshotState, Start, HasSnapshot, SNAPSHOT_KEY, Key;
    match event
    case SetOne(key, value, _) =>
      assert ValidUpdates([(key, value)]);
      StartKeeps(w, [(key, value)]);
      StartEntries(w, [(key, value)]);
    case Batch(updates) =>
      StartKeeps(w, updates);
      StartEntries(w, updates);
    case Commit(works) =>
      if w.waiting != [] {
        if works { LandKeeps(w); } else { FailKeeps(w); }
      }
    case Resume => ResumeKeeps(w);
    case Finish => FinishKeeps(w);
    case Mirror(name, document) => MirrorKeeps(w, name, document);
  }

  lemma StartEntries(w: Session, updates: Updates)
    ensures Start(w, updates).entries == w.entries
  {
  }

  lemma {:induction false} RunKeeps(w: Session, events: seq<Event>)
    requires Invariant(w) && ValidEvents(events)
    ensures Invariant(Run(w, events))
    ensures SnapshotRevision(w.entries) <= SnapshotRevision(Run(w, events).entries)
  {
    hide Invariant, Next, ValidEvent, SnapshotRevision, HasSnapshot;
    if events == [] {
    } else {
      RunKeeps(w, events[..|events| - 1]);
      StepKeeps(Run(w, events[..|events| - 1]), events[|events| - 1]);
    }
  }

  function Opened(start: Entries): Session {
    var r := Initialize(start, true);
    Session(r.memory.state, r.memory.revision, Final(start, r.writes), [], false, [], [r.memory.state], [])
  }

  lemma OpenedInvariant(start: Entries)
    requires Initialize(start, true).ok
    ensures Invariant(Opened(start))
  {
    hide STATE_KEYS, DEFAULT_STATE, Key, SnapshotDocument, MirrorsReadable;
    InitializeAgrees(start, true);
    if !HasSnapshot(start) {
      ReloadCommitted(start, 1, Mirrors(start));
    }
  }

  /**
   * Every run of overlapping calls, snapshot writes landing or failing in call order, mirrors whenever:
   * in-flight revisions are the current one or the next, memory is the last finished state, and a
   * process that dies anywhere reloads memory or a landed call's state, memory once none is in flight.
   */
  lemma OverlappingRun(start: Entries, events: seq<Event>)
    requires Initialize(start, true).ok && ValidEvents(events)
    ensures var w := Run(Opened(start), events);
            && (forall c :: c in w.landed + w.waiting ==> c.revision == w.revision || c.revision == w.revision + 1)
            && w.states != [] && w.memory == w.states[|w.states| - 1]
            && HasSnapshot(w.entries)
            && (w.landed == [] ==> Reload(w.entries) == Some(w.memory) && SnapshotRevision(w.entries) == w.revision)
            && (w.landed != [] ==> Reload(w.entries) == Some(w.landed[|w.landed| - 1].next))
  {
    hide Run, Opened, HasSnapshot, SnapshotRevision, SnapshotState, ValidEvents, Initialize;
    OpenedInvariant(start);
    RunKeeps(Opened(start), events);
    assert Invariant(Run(Opened(start), events));
  }

  /** The revision in storage never goes down. */
  lemma {:induction false} StoredRevisionsGrow(w: Session, events: seq<Event>, k: nat)
    requires Invariant(w) && ValidEvents(events) && k <= |events|
    ensures Invariant(Run(w, events[..k])) && Invariant(Run(w, events))
    ensures SnapshotRevision(Run(w, events[..k]).entries) <= SnapshotRevision(Run(w, events).entries)
  {
    hide Invariant, Next, ValidEvent, SnapshotRevision, HasSnapshot;
    RunKeeps(w, events);
    RunKeeps(w, events[..k]);
    if k < |events| {
      var before := events[..|events| - 1];
      assert before[..k] == events[..k];
      StoredRevisionsGrow(w, before, k);
      StepKeeps(Run(w, before), events[|events| - 1]);
    } else {
      assert events[..k] == events;
    }
  }

  // ---- What overlapping loses ----

  function OverlayAll(state: State, turns: seq<Turn>): State {
    if turns == [] then state else Overlay(OverlayAll(state, turns[..|turns| - 1]), turns[|turns| - 1].updates)
  }

  lemma {:induction false} PrefixOverlays(w: Session, n: nat)
    requires Invariant(w) && n <= |w.turns|
    requires forall i :: 0 <= i < n ==> w.turns[i].seen == i
    ensures w.states[n] == OverlayAll(w.states[0], w.turns[..n])
  {
    hide Overlay, ValidUpdates, Numbered, Durable, Complete, CallMatches;
    if n == 0 {
    } else {
      PrefixOverlays(w, n - 1);
      assert TurnMatches(w, n - 1);
      assert w.turns[..n][..n - 1] == w.turns[..n - 1];
    }
  }

  /** When every finished call had seen all those finished before it, memory holds every update, in order. */
  lemma NoOverlapNoLoss(w: Session)
    requires Invariant(w)
    requires forall i :: 0 <= i < |w.turns| ==> w.turns[i].seen == i
    ensures w.memory == OverlayAll(w.states[0], w.turns)
  {
    PrefixOverlays(w, |w.turns|);
    assert w.turns[..|w.turns|] == w.turns;
  }

  /**
   * A finishing call puts every key it does not write back to the value it had when the call was made:
   * whatever calls finished in between wrote there is lost exactly when they had changed it.
   */
  lemma FinishReverts(w: Session, i: nat, name: string)
    requires Invariant(w) && i < |w.turns| && name in STATE_KEYS
    ensures name in w.states[i] && name in w.states[i + 1] && w.turns[i].seen <= i && name in w.states[w.turns[i].seen]
    ensures !Updated(w.turns[i].updates, name) ==>
              (w.states[i + 1][name] == w.states[i][name] <==> w.states[w.turns[i].seen][name] == w.states[i][name])
    ensures forall j :: 0 <= j < |w.turns[i].updates| && w.turns[i].updates[j].0 == name ==>
              w.states[i + 1][name] == w.turns[i].updates[j].1
  {
    hide STATE_KEYS, Overlay, Numbered, Durable, CallMatches;
    assert TurnMatches(w, i);
    OverlayAt(w.states[w.turns[i].seen], w.turns[i].updates, name);
  }

  /**
   * Where the value of a key after n finished calls comes from: 0 for the first state, k for the k-th
   * finished call. A call that does not write the key takes it from the state it had seen.
   */
  function Source(w: Session, n: nat, name: string): (k: nat)
    requires Invariant(w) && n <= |w.turns|
    ensures k <= n && (k > 0 ==> Updated(w.turns[k - 1].updates, name))
    decreases n
  {
    hide Overlay, Numbered, Durable, CallMatches, ValidUpdates, Complete;
    if n == 0 then 0
    else
      assert TurnMatches(w, n - 1);
      if Updated(w.turns[n - 1].updates, name) then n else Source(w, w.turns[n - 1].seen, name)
  }

  /** The last of the first n finished calls to write the key, or 0. */
  function LastWriter(turns: seq<Turn>, n: nat, name: string): (k: nat)
    requires n <= |turns|
    ensures k <= n && (k > 0 ==> Updated(turns[k - 1].updates, name))
  {
    if n == 0 then 0 else if Updated(turns[n - 1].updates, name) then n else LastWriter(turns, n - 1, name)
  }

  /** The value after n calls is the one its source left. */
  lemma {:induction false} ValueOfSource(w: Session, n: nat, name: string)
    requires Invariant(w) && n <= |w.turns| && name in STATE_KEYS
    ensures name in w.states[n] && name in w.states[Source(w, n, name)]
    ensures w.states[n][name] == w.states[Source(w, n, name)][name]
    decreases n
  {
    hide STATE_KEYS, Overlay, Numbered, Durable, CallMatches, Updated;
    assert Complete(w.states[n]);
    if n == 0 {
    } else {
      assert TurnMatches(w, n - 1);
      FinishReverts(w, n - 1, name);
      if !Updated(w.turns[n - 1].updates, name) {
        var seen := w.turns[n - 1].seen;
        TurnValue(w, n - 1, name);
        ValueOfSource(w, seen, name);
      }
    }
  }

  lemma TurnValue(w: Session, i: nat, name: string)
    requires Invariant(w) && i < |w.turns| && name in STATE_KEYS && !Updated(w.turns[i].updates, name)
    ensures w.turns[i].seen <= i && name in w.states[i + 1] && name in w.states[w.turns[i].seen]
    ensures w.states[i + 1][name] == w.states[w.turns[i].seen][name]
  {
    hide STATE_KEYS, Overlay, Numbered, Durable, CallMatches;
    assert TurnMatches(w, i);
    assert Complete(w.states[i + 1]) && Complete(w.states[w.turns[i].seen]);
    OverlayAt(w.states[w.turns[i].seen], w.turns[i].updates, name);
  }

  /** The value a call left under a key it wrote. */
  lemma WrittenValue(w: Session, i: nat, name: string)
    requires Invariant(w) && i < |w.turns| && Updated(w.turns[i].updates, name)
    ensures exists j :: 0 <= j < |w.turns[i].updates| && w.turns[i].updates[j].0 == name
                        && name in w.states[i + 1] && w.states[i + 1][name] == w.turns[i].updates[j].1
  {
    hide STATE_KEYS, Overlay, Numbered, Durable, CallMatches;
    assert TurnMatches(w, i);
    OverlayAt(w.states[w.turns[i].seen], w.turns[i].updates, name);
    var j :| 0 <= j < |w.turns[i].updates| && w.turns[i].updates[j].0 == name;
  }

  /**
   * Over every run: what the i-th finished call wrote under a key, being unlike anything else ever held
   * there, is in memory at the end exactly when the chain of seen states leads back to that call.
   */
  lemma UpdateSurvivesExactly(w: Session, i: nat, name: string)
    requires Invariant(w) && i < |w.turns| && name in STATE_KEYS && Updated(w.turns[i].updates, name)
    requires name in w.states[0] && name in w.states[i + 1]
    requires w.states[0][name] != w.states[i + 1][name]
    requires forall k :: 0 <= k < |w.turns| && k != i && Updated(w.turns[k].updates, name) ==>
               name in w.states[k + 1] && w.states[k + 1][name] != w.states[i + 1][name]
    ensures name in w.memory
    ensures w.memory[name] == w.states[i + 1][name] <==> Source(w, |w.turns|, name) == i + 1
  {
    hide STATE_KEYS, Overlay, Numbered, Durable, CallMatches, Updated;
    ValueOfSource(w, |w.turns|, name);
    var k := Source(w, |w.turns|, name);
    if k > 0 && k != i + 1 {
      assert Updated(w.turns[k - 1].updates, name);
    }
  }

  lemma {:induction false} OverlayAllAt(w: Session, n: nat, name: string)
    requires Invariant(w) && n <= |w.turns| && name in STATE_KEYS
    ensures name in OverlayAll(w.states[0], w.turns[..n]) && name in w.states[LastWriter(w.turns, n, name)]
    ensures OverlayAll(w.states[0], w.turns[..n])[name] == w.states[LastWriter(w.turns, n, name)][name]
    decreases n
  {
    hide STATE_KEYS, Overlay, Numbered, Durable, CallMatches;
    assert Complete(w.states[0]);
    if n == 0 {
    } else {
      assert w.turns[..n][..n - 1] == w.turns[..n - 1];
      assert TurnMatches(w, n - 1);
      OverlayAllAt(w, n - 1, name);
      OverlayAt(OverlayAll(w.states[0], w.turns[..n - 1]), w.turns[n - 1].updates, name);
      if Updated(w.turns[n - 1].updates, name) {
        WrittenValue(w, n - 1, name);
      }
    }
  }

  /**
   * Over every run memory holds, key by key, what the last finished call to write the key wrote, exactly
   * when the value the chain of seen states leads back to is that one.
   */
  lemma NoLossExactly(w: Session, name: string)
    requires Invariant(w) && name in STATE_KEYS
    ensures var all := OverlayAll(w.states[0], w.turns);
            var source, last := Source(w, |w.turns|, name), LastWriter(w.turns, |w.turns|, name);
            && name in w.memory && name in all && name in w.states[source] && name in w.states[last]
            && (w.memory[name] == all[name] <==> w.states[source][name] == w.states[last][name])
            && (source == last ==> w.memory[name] == all[name])
  {
    hide STATE_KEYS, Overlay, OverlayAll, Numbered, Durable, CallMatches, Source, LastWriter;
    ValueOfSource(w, |w.turns|, name);
    OverlayAllAt(w, |w.turns|, name);
    assert w.turns[..|w.turns|] == w.turns;
  }

  lemma ReloadLanded(w: Session)
    requires Invariant(w) && w.landed == []
    ensures Reload(w.entries) == Some(w.memory) && Complete(w.memory) && !w.resumed
  {
  }

  lemma RunSnoc(w: Session, events: seq<Event>, event: Event)
    ensures Run(w, events + [event]) == Next(Run(w, events), event)
  {
    assert (events + [event])[..|events|] == events;
  }

  lemma RunNothing(w: Session)
    ensures Run(w, []) == w
  {
  }

  lemma RunFour(w: Session, a: Event, b: Event, c: Event, d: Event)
    ensures Run(w, [a, b, c, d]) == Next(Next(Next(Next(w, a), b), c), d)
  {
    hide Next, Run;
    RunNothing(w);
    RunSnoc(w, [], a);
    RunSnoc(w, [a], b);
    RunSnoc(w, [a, b], c);
    RunSnoc(w, [a, b, c], d);
    assert [] + [a] == [a] && [a] + [b] == [a, b] && [a, b] + [c] == [a, b, c] && [a, b, c] + [d] == [a, b, c, d];
  }

  /**
   * Two calls on different keys, the second made before the first lands: both succeed under one and the
   * same revision, the first one's update is gone, and storage agrees with memory all the same.
   */
  lemma LostUpdate(w: Session, first: string, second: string, a: Json, b: Json)
    requires Invariant(w) && w.landed == [] && w.waiting == []
    requires first in STATE_KEYS && second in STATE_KEYS && first != second
    requires a != w.memory[first] && b != w.memory[second]
    ensures var one, two := Event.SetOne(first, a, false), Event.SetOne(second, b, false);
            var u := Run(w, [one, two, Commit(true), Commit(true)]);
            var v := Run(u, [Resume, Finish, Resume, Finish]);
            && v.landed == [] && v.waiting == [] && v.revision == w.revision + 1
            && v.memory == w.memory[second := b] && v.memory[first] == w.memory[first] != a
            && Reload(v.entries) == Some(v.memory)
  {
    hide STATE_KEYS, DEFAULT_STATE, Key, SNAPSHOT_KEY, SnapshotDocument, Overlay, SnapshotState, SnapshotRevision,
         HasSnapshot, Run, Invariant;
    var one, two := Event.SetOne(first, a, false), Event.SetOne(second, b, false);
    RunFour(w, one, two, Commit(true), Commit(true));
    var u := Run(w, [one, two, Commit(true), Commit(true)]);
    RunFour(u, Resume, Finish, Resume, Finish);
    OverlayOne(w.memory, first, a);
    OverlayOne(w.memory, second, b);
    assert [Call(w.revision + 1, |w.turns|, [(first, a)], w.memory[first := a])][1..] == [];
    assert ValidEvents([one, two, Commit(true), Commit(true)]) && ValidEvents([Resume, Finish, Resume, Finish]);
    RunKeeps(w, [one, two, Commit(true), Commit(true)]);
    RunKeeps(u, [Resume, Finish, Resume, Finish]);
    ReloadLanded(Run(u, [Resume, Finish, Resume, Finish]));
  }

  // ---- Calls that do not overlap ----

  function EventOf(op: Op): Event
    requires !op.ClearAll?
  {
    match op
    case SetOne(key, value, same, _, _) => Event.SetOne(key, value, same)
    case Batch(updates, _, _) => Event.Batch(updates)
  }

  function SnapshotWorks(op: Op): bool
    requires !op.ClearAll?
  {
    match op
    case SetOne(_, _, _, works, _) => works
    case Batch(_, works, _) => works
  }

  lemma AloneFinishes(w: Session, updates: Updates, works: bool)
    requires w.landed == [] && w.waiting == [] && !w.resumed
    ensures var v := Next(Next(Next(Start(w, updates), Commit(works)), Resume), Finish);
            && v.landed == [] && v.waiting == [] && !v.resumed
            && v.memory == (if works then Overlay(w.memory, updates) else w.memory)
            && v.revision == (if works then w.revision + 1 else w.revision)
            && (!works ==> v.entries == w.entries)
  {
    hide Key, SNAPSHOT_KEY, SnapshotDocument, Overlay;
    assert Start(w, updates).waiting[1..] == [];
  }

  lemma IdleStays(w: Session, works: bool)
    requires w.landed == [] && w.waiting == [] && !w.resumed
    ensures Next(Next(Next(w, Commit(works)), Resume), Finish) == w
  {
  }

  lemma EventsValid(op: Op)
    requires ValidOp(op) && !op.ClearAll?
    ensures ValidEvents([EventOf(op), Commit(SnapshotWorks(op)), Resume, Finish])
  {
    hide STATE_KEYS;
  }

  /** The two models agree on what an operation writes and on when it returns early. */
  lemma AsUpdate(w: Session, op: Op) returns (updates: Updates, changes: bool, refused: set<string>)
    requires !op.ClearAll?
    ensures var m := Memory(w.memory, w.revision, true);
            Apply(m, w.entries, op) == Update(m, w.entries, updates, changes, SnapshotWorks(op), refused)
    ensures Next(w, EventOf(op)) == if changes then Start(w, updates) else w
  {
    hide Update, Start;
    match op
    case SetOne(key, value, same, _, r) =>
      updates, changes, refused :=
            [(key, value)], !IdenticalTo(Memory(w.memory, w.revision, true), key, value, same), r;
    case Batch(u, _, r) =>
      updates, changes, refused := u, ChangedKeys(w.memory, u) != [], r;
  }

  /** A call run to its end before the next one has exactly the serial effect on memory and on reload. */
  lemma SerialRefines(w: Session, op: Op)
    requires Invariant(w) && w.landed == [] && w.waiting == [] && ValidOp(op) && !op.ClearAll?
    ensures var r := Apply(Memory(w.memory, w.revision, true), w.entries, op);
            var v := Run(w, [EventOf(op), Commit(SnapshotWorks(op)), Resume, Finish]);
            && v.memory == r.memory.state && v.revision == r.memory.revision
            && v.landed == [] && v.waiting == [] && !v.resumed
            && Reload(v.entries) == Reload(Final(w.entries, r.writes))
  {
    hide Run, Reload, Invariant, Next, Start, Apply, MirrorWrites, Overlay, Committed, ValidOp, Complete;
    var works := SnapshotWorks(op);
    RunFour(w, EventOf(op), Commit(works), Resume, Finish);
    EventsValid(op);
    RunKeeps(w, [EventOf(op), Commit(works), Resume, Finish]);
    ReloadLanded(w);
    var m := Memory(w.memory, w.revision, true);
    var r := Apply(m, w.entries, op);
    var updates, changes, refused := AsUpdate(w, op);
    IdleStays(w, works);
    AloneFinishes(w, updates, works);
    ReloadLanded(Run(w, [EventOf(op), Commit(works), Resume, Finish]));
    if r.writes != [] {
      CrashAtomic(m, w.entries, op, Final(w.entries, r.writes));
    }
  }
}
