// Overlapping calls on one address's referrer names, pwa/composables/useReferrerManager.ts. Each call reads
// the list in its first stretch and, when it writes at all, stores a whole list in its last.

module ReferrersOverlap {
  import opened Basics
  import opened StorageAdapter
  import opened Referrers

  /** A call under way: an edit with the list it will store, or a getAllReferrerTxIds amid its loop. */
  datatype Call =
    | Edit(names: seq<string>)
    | Filter(read: seq<string>, kept: seq<string>, todo: seq<string>)

  datatype Session = Session(items: Items<Value>, calls: map<nat, Call>)

  /** Starts of a call, one turn of the rewriting loop, the last stretch, and a transaction id being cached. */
  datatype Event =
    | Add(id: nat, name: string)
    | Remove(id: nat, name: string)
    | GetAll(id: nat)
    | Check(id: nat)
    | Finish(id: nat, works: bool)
    | Cache(name: string, txId: string)

  function Next(s: Session, address: string, e: Event): Session {
    match e
    case Add(id, name) =>
      var names := NamesAt(s.items, address);
      if id in s.calls || !Readable(s.items, address) || name in names then s
      else s.(calls := s.calls[id := Edit(names + [name])])
    case Remove(id, name) =>
      if id in s.calls || !Stores(s.items, address) then s
      else s.(calls := s.calls[id := Edit(WithoutName(NamesAt(s.items, address), name))])
    case GetAll(id) =>
      var names := NamesAt(s.items, address);
      if id in s.calls || !Listed(s.items, address) then s else s.(calls := s.calls[id := Filter(names, [], names)])
    case Check(id) =>
      if !Checking(s, id) then s
      else
        var c := s.calls[id];
        var kept := if Valid(s.items, address, c.todo[0]) then c.kept + [c.todo[0]] else c.kept;
        s.(calls := s.calls[id := Filter(c.read, kept, c.todo[1..])])
    case Finish(id, works) =>
      if id !in s.calls || Checking(s, id) then s
      else
        var written := Writes(s.calls[id]);
        Session(if works && written.Some? then Stored(s.items, NamesKey(address), Names(written.value)) else s.items,
                s.calls - {id})
    case Cache(name, txId) => s.(items := Stored(s.items, TxIdKey(address, name), Plain(txId)))
  }

  predicate Checking(s: Session, id: nat) { id in s.calls && s.calls[id].Filter? && s.calls[id].todo != [] }

  /** The list a call stores: an edit always, the rewrite only when it is shorter than what was read. */
  function Writes(c: Call): Option<seq<string>> {
    match c
    case Edit(names) => Some(names)
    case Filter(read, kept, _) => if |kept| != |read| then Some(kept) else None
  }

  function Run(s: Session, address: string, events: seq<Event>): Session {
    if events == [] then s else Next(Run(s, address, events[..|events| - 1]), address, events[|events| - 1])
  }

  function List(s: Session, address: string): seq<string> { NamesAt(s.items, address) }

  lemma StoringTxId(items: Items<Value>, address: string, name: string, txId: string)
    ensures var v := Stored(items, TxIdKey(address, name), Plain(txId));
            && NamesAt(v, address) == NamesAt(items, address)
            && Listed(v, address) == Listed(items, address)
  {
    hide NamesKey, TxIdKey;
    KeysDiffer(address, address, name);
    LookupStored(items, TxIdKey(address, name), Plain(txId), NamesKey(address));
  }

  /** The list changes in one way only: the last stretch of a call stores its list over it. */
  lemma ListAfter(s: Session, address: string, e: Event)
    ensures List(Next(s, address, e), address) ==
            if Finishes(s, e) && e.works && Writes(s.calls[e.id]).Some? then Writes(s.calls[e.id]).value
            else List(s, address)
  {
    hide NamesAt, NamesKey, TxIdKey, Readable, Stores, Listed, TxIdAt;
    match e
    case Cache(name, txId) => StoringTxId(s.items, address, name, txId);
    case Finish(id, works) =>
      if id in s.calls && Writes(s.calls[id]).Some? {
        StoringNames(s.items, address, Writes(s.calls[id]).value);
      }
    case _ =>
  }

  /** The last stretch of a call under way. */
  predicate Finishes(s: Session, e: Event) { e.Finish? && e.id in s.calls && !Checking(s, e.id) }

  /** Exactly the steps that take a name out of the list. */
  lemma StepLoses(s: Session, address: string, e: Event, x: string)
    requires x in List(s, address)
    ensures x !in List(Next(s, address, e), address) <==>
            && Finishes(s, e) && e.works
            && Writes(s.calls[e.id]).Some? && x !in Writes(s.calls[e.id]).value
  {
    hide Next, List, Writes;
    ListAfter(s, address, e);
  }

  // ---- What others finish between a call's two ends ----

  /** Between its ends a call makes no step but the turns of its own loop; the others do as they like. */
  predicate Between(id: nat, events: seq<Event>) { forall e :: e in events ==> !(e.Finish? && e.id == id) }

  /** The step finds no transaction id for a name that call `id` has read. */
  predicate Misses(s: Session, address: string, id: nat, e: Event) {
    e == Check(id) && Checking(s, id) && !Valid(s.items, address, s.calls[id].todo[0])
  }

  /** The step finds one for name `x`. */
  predicate Finds(s: Session, address: string, id: nat, e: Event, x: string) {
    e == Check(id) && Checking(s, id) && s.calls[id].todo[0] == x && Valid(s.items, address, x)
  }

  /** Some turn of the loop finds no transaction id. */
  predicate Dropped(s: Session, address: string, id: nat, events: seq<Event>) {
    exists i :: 0 <= i < |events| && Misses(Run(s, address, events[..i]), address, id, events[i])
  }

  /** Some turn of the loop finds one for name `x`. */
  predicate Found(s: Session, address: string, id: nat, events: seq<Event>, x: string) {
    exists i :: 0 <= i < |events| && Finds(Run(s, address, events[..i]), address, id, events[i], x)
  }

  lemma RunSnoc(s: Session, address: string, before: seq<Event>, e: Event)
    ensures Run(s, address, before + [e]) == Next(Run(s, address, before), address, e)
  {
    assert (before + [e])[..|before|] == before;
  }

  lemma DroppedSnoc(s: Session, address: string, id: nat, before: seq<Event>, e: Event)
    ensures Dropped(s, address, id, before + [e]) <==>
            Dropped(s, address, id, before) || Misses(Run(s, address, before), address, id, e)
  {
    hide Run, Misses;
    var events := before + [e];
    assert forall i :: 0 <= i < |before| ==> events[..i] == before[..i] && events[i] == before[i];
    assert events[..|before|] == before && events[|before|] == e;
  }

  lemma FoundSnoc(s: Session, address: string, id: nat, before: seq<Event>, e: Event, x: string)
    ensures Found(s, address, id, before + [e], x) <==>
            Found(s, address, id, before, x) || Finds(Run(s, address, before), address, id, e, x)
  {
    hide Run, Finds;
    var events := before + [e];
    assert forall i :: 0 <= i < |before| ==> events[..i] == before[..i] && events[i] == before[i];
    assert events[..|before|] == before && events[|before|] == e;
  }

  /** What a loop under way has kept: the names found so far, as many as were checked unless one was missed. */
  ghost predicate Tracks(s: Session, address: string, id: nat, events: seq<Event>) {
    var u := Run(s, address, events);
    && id in u.calls && u.calls[id].Filter? && u.calls[id].read == List(s, address)
    && (forall x :: x in u.calls[id].kept <==> Found(s, address, id, events, x))
    && (forall x :: x in u.calls[id].kept + u.calls[id].todo ==> x in List(s, address))
    && |u.calls[id].kept| + |u.calls[id].todo| <= |List(s, address)|
    && (|u.calls[id].kept| + |u.calls[id].todo| < |List(s, address)| <==> Dropped(s, address, id, events))
  }

  lemma {:induction false} LoopTracks(s: Session, address: string, id: nat, events: seq<Event>)
    requires id in s.calls && s.calls[id] == Filter(List(s, address), [], List(s, address)) && Between(id, events)
    ensures Tracks(s, address, id, events)
  {
    if events == [] {
    } else {
      var before, e := events[..|events| - 1], events[|events| - 1];
      assert events == before + [e];
      LoopTracks(s, address, id, before);
      TracksStep(s, address, id, before, e);
    }
  }

  lemma TracksStep(s: Session, address: string, id: nat, before: seq<Event>, e: Event)
    requires Tracks(s, address, id, before) && !(e.Finish? && e.id == id)
    ensures Tracks(s, address, id, before + [e])
  {
    hide Run, Valid, NamesAt, Stores, Readable, Listed, Dropped, Found, Writes;
    var u := Run(s, address, before);
    RunSnoc(s, address, before, e);
    DroppedSnoc(s, address, id, before, e);
    forall x
      ensures Found(s, address, id, before + [e], x) <==>
              Found(s, address, id, before, x) || Finds(u, address, id, e, x)
    {
      FoundSnoc(s, address, id, before, e, x);
    }
    if e == Check(id) && Checking(u, id) {
      var c := u.calls[id];
      assert c.todo == [c.todo[0]] + c.todo[1..];
    } else {
      assert Next(u, address, e).calls[id] == u.calls[id];
    }
  }

  /**
   * getAllReferrerTxIds against everything that finishes between its reading and its writing: a name that is in
   * the list before the write is lost exactly when the write works, the loop missed some name it had read, and
   * it found no transaction id for this one.
   */
  lemma RewriteLoses(s: Session, address: string, id: nat, events: seq<Event>, works: bool, x: string)
    requires id !in s.calls && Listed(s.items, address) && Between(id, events)
    requires var t := Next(s, address, GetAll(id)); !Checking(Run(t, address, events), id)
    requires var t := Next(s, address, GetAll(id)); x in List(Run(t, address, events), address)
    ensures var t := Next(s, address, GetAll(id));
            var u := Run(t, address, events);
            x !in List(Next(u, address, Finish(id, works)), address) <==>
              works && Dropped(t, address, id, events) && !Found(t, address, id, events, x)
  {
    hide Run, NamesAt, Found, Dropped, Listed;
    var t := Next(s, address, GetAll(id));
    LoopTracks(t, address, id, events);
    StepLoses(Run(t, address, events), address, Finish(id, works), x);
  }

  /** So a name that was not in the list when it was read is lost whenever the list is rewritten at all. */
  lemma NewNameLost(s: Session, address: string, id: nat, events: seq<Event>, works: bool, x: string)
    requires id !in s.calls && Listed(s.items, address) && Between(id, events) && x !in List(s, address)
    requires var t := Next(s, address, GetAll(id)); !Checking(Run(t, address, events), id)
    requires var t := Next(s, address, GetAll(id)); x in List(Run(t, address, events), address)
    ensures var t := Next(s, address, GetAll(id));
            var u := Run(t, address, events);
            x !in List(Next(u, address, Finish(id, works)), address) <==> works && Dropped(t, address, id, events)
  {
    hide Run, NamesAt, Found, Dropped, Listed;
    var t := Next(s, address, GetAll(id));
    LoopTracks(t, address, id, events);
    RewriteLoses(s, address, id, events, works, x);
  }

  lemma {:induction false} EditWaits(s: Session, address: string, id: nat, events: seq<Event>)
    requires id in s.calls && s.calls[id].Edit? && Between(id, events)
    ensures var u := Run(s, address, events); id in u.calls && u.calls[id] == s.calls[id]
  {
    hide NamesAt, Valid, Stores, Readable, Listed, Writes;
    if events == [] {
    } else {
      EditWaits(s, address, id, events[..|events| - 1]);
    }
  }

  /** An addition that stores its list loses exactly the names that were added since it read it. */
  lemma AddLoses(s: Session, address: string, id: nat, name: string, events: seq<Event>, works: bool, x: string)
    requires id !in s.calls && Readable(s.items, address) && name !in List(s, address) && Between(id, events)
    requires x in List(Run(Next(s, address, Add(id, name)), address, events), address)
    ensures var u := Run(Next(s, address, Add(id, name)), address, events);
            x !in List(Next(u, address, Finish(id, works)), address) <==> works && x != name && x !in List(s, address)
  {
    hide Run, NamesAt, Readable;
    var t := Next(s, address, Add(id, name));
    EditWaits(t, address, id, events);
    StepLoses(Run(t, address, events), address, Finish(id, works), x);
  }

  /** A removal likewise, besides the name it removes. */
  lemma RemoveLoses(s: Session, address: string, id: nat, name: string, events: seq<Event>, works: bool, x: string)
    requires id !in s.calls && Stores(s.items, address) && Between(id, events)
    requires x in List(Run(Next(s, address, Remove(id, name)), address, events), address)
    ensures var u := Run(Next(s, address, Remove(id, name)), address, events);
            x !in List(Next(u, address, Finish(id, works)), address) <==>
              works && (x == name || x !in List(s, address))
  {
    hide Run, NamesAt, Stores;
    var t := Next(s, address, Remove(id, name));
    EditWaits(t, address, id, events);
    StepLoses(Run(t, address, events), address, Finish(id, works), x);
  }

  /** Both calls succeed, and the added name is gone: the list held one name without a transaction id. */
  lemma AddLostInRewrite(address: string)
    ensures var s := Session([(NamesKey(address), Names(["a"]))], map[]);
            var added := Run(s, address, [GetAll(0), Check(0), Add(1, "b"), Finish(1, true)]);
            && List(added, address) == ["a", "b"]
            && List(Next(added, address, Finish(0, true)), address) == []
  {
    hide NamesKey, TxIdKey, Run;
    var s := Session([(NamesKey(address), Names(["a"]))], map[]);
    KeysDiffer(address, address, "a");
    assert s.items[1..] == [];
    assert Lookup(s.items, TxIdKey(address, "a")) == Lookup(s.items[1..], TxIdKey(address, "a"));
    assert !Valid(s.items, address, "a");
    assert List(s, address) == ["a"];
    var s1 := Next(s, address, GetAll(0));
    assert s1 == s.(calls := map[0 := Filter(["a"], [], ["a"])]);
    var s2 := Next(s1, address, Check(0));
    assert s1.calls[0].todo[1..] == [] && s2.items == s.items;
    assert s2.calls == map[0 := Filter(["a"], [], [])];
    var s3 := Next(s2, address, Add(1, "b"));
    assert Readable(s2.items, address) && ["a"] + ["b"] == ["a", "b"];
    assert s3.calls == s2.calls[1 := Edit(["a", "b"])];
    var s4 := Next(s3, address, Finish(1, true));
    ListAfter(s3, address, Finish(1, true));
    ListAfter(s4, address, Finish(0, true));
    RunFour(s, address, GetAll(0), Check(0), Add(1, "b"), Finish(1, true));
  }

  lemma RunFour(s: Session, address: string, a: Event, b: Event, c: Event, d: Event)
    ensures Run(s, address, [a, b, c, d]) ==
            Next(Next(Next(Next(s, address, a), address, b), address, c), address, d)
  {
    hide Next;
    RunSnoc(s, address, [], a);
    RunSnoc(s, address, [a], b);
    RunSnoc(s, address, [a, b], c);
    RunSnoc(s, address, [a, b, c], d);
    assert [] + [a] == [a] && [a] + [b] == [a, b] && [a, b] + [c] == [a, b, c] && [a, b, c] + [d] == [a, b, c, d];
  }

  // ---- A call on its own ----

  lemma CheckStep(u: Session, address: string, id: nat)
    requires Checking(u, id)
    ensures var c, v := u.calls[id], Next(u, address, Check(id));
            && v.items == u.items && id in v.calls
            && v.calls[id] == Filter(c.read, c.kept + (if Valid(u.items, address, c.todo[0]) then [c.todo[0]] else []),
                                     c.todo[1..])
  {
    hide Valid;
    assert u.calls[id].kept + [] == u.calls[id].kept;
  }

  lemma KeptOneMore(items: Items<Value>, address: string, names: seq<string>, n: nat)
    requires n < |names|
    ensures Kept(items, address, names[..n + 1]) ==
            Kept(items, address, names[..n]) + (if Valid(items, address, names[n]) then [names[n]] else [])
  {
    hide Valid;
    assert names[..n + 1][..n] == names[..n];
  }

  lemma {:induction false} ChecksKeep(s: Session, address: string, id: nat, n: nat)
    requires id in s.calls && s.calls[id] == Filter(List(s, address), [], List(s, address)) && n <= |List(s, address)|
    ensures var u := Run(s, address, seq(n, i => Check(id)));
            && u.items == s.items && id in u.calls
            && u.calls[id] == Filter(List(s, address), Kept(s.items, address, List(s, address)[..n]),
                                     List(s, address)[n..])
  {
    hide NamesAt, Valid, Next, Kept;
    if n == 0 {
      NoneKept(s.items, address, List(s, address)[..0]);
    } else {
      var names, before := List(s, address), seq(n - 1, i => Check(id));
      ChecksKeep(s, address, id, n - 1);
      assert seq(n, i => Check(id)) == before + [Check(id)];
      RunSnoc(s, address, before, Check(id));
      CheckStep(Run(s, address, before), address, id);
      KeptOneMore(s.items, address, names, n - 1);
      assert names[n - 1..][0] == names[n - 1] && names[n - 1..][1..] == names[n..];
    }
  }

  lemma NoneKept(items: Items<Value>, address: string, names: seq<string>)
    requires names == []
    ensures Kept(items, address, names) == []
  {
  }

  /** With nothing in between, the stretches do what `ReferrerManager.GetAllReferrerTxIds` does to the list. */
  lemma RewriteAlone(s: Session, address: string, id: nat, works: bool)
    requires id !in s.calls && Listed(s.items, address)
    ensures var names := List(s, address);
            var kept := Kept(s.items, address, names);
            var u := Run(Next(s, address, GetAll(id)), address, seq(|names|, i => Check(id)));
            List(Next(u, address, Finish(id, works)), address) == if works || kept == names then kept else names
  {
    hide NamesAt, Run, Kept, Listed;
    var t, names := Next(s, address, GetAll(id)), List(s, address);
    ChecksKeep(t, address, id, |names|);
    assert names[..|names|] == names;
    var u := Run(t, address, seq(|names|, i => Check(id)));
    ListAfter(u, address, Finish(id, works));
    if |Kept(s.items, address, names)| == |names| {
      NothingDropped(s.items, address, names);
    }
  }
}
