// Safety of the deep-link bridge over every interleaving, and the bridge itself as the class
// whose methods make those transitions.

module DeepLink {
  import opened Basics
  import opened JsonValues
  import opened StorageAdapter
  import opened DeepLinkSpec

  lemma {:induction false} LookupIs<T>(items: Items<T>, key: string)
    ensures Lookup(items, key).Some? <==> exists i :: 0 <= i < |items| && items[i].0 == key
    ensures Lookup(items, key).Some? ==> (key, Lookup(items, key).value) in items
    ensures DistinctKeys(items) ==>
              forall i :: 0 <= i < |items| && items[i].0 == key ==> Lookup(items, key) == Some(items[i].1)
  {
    if items == [] {
    } else {
      LookupIs(items[1..], key);
      assert forall i :: 0 < i < |items| ==> items[i] == items[1..][i - 1];
    }
  }

  lemma HeadKeyFresh<T>(items: Items<T>)
    requires DistinctKeys(items) && items != []
    ensures DistinctKeys(items[1..]) && forall x :: x in items[1..] ==> x.0 != items[0].0
  {
    forall x | x in items[1..]
      ensures x.0 != items[0].0
    {
      var k :| 0 <= k < |items[1..]| && items[1..][k] == x;
      assert items[k + 1] == x;
      assert items[0].0 != items[k + 1].0;
    }
  }

  lemma ConsDistinct<T>(item: (string, T), rest: Items<T>)
    requires DistinctKeys(rest) && forall x :: x in rest ==> x.0 != item.0
    ensures DistinctKeys([item] + rest)
  {
    var all := [item] + rest;
    forall i, j | 0 <= i < j < |all|
      ensures all[i].0 != all[j].0
    {
      assert all[j] == rest[j - 1] && rest[j - 1] in rest;
    }
  }

  lemma {:induction false} WithoutIs<T>(items: Items<T>, key: string)
    ensures forall x :: x in Without(items, key) ==> x in items && x.0 != key
    ensures forall x :: x in items && x.0 != key ==> x in Without(items, key)
    ensures DistinctKeys(items) ==> DistinctKeys(Without(items, key))
  {
    if items == [] {
    } else {
      WithoutIs(items[1..], key);
      assert items == [items[0]] + items[1..];
      if DistinctKeys(items) {
        HeadKeyFresh(items);
        var rest := Without(items[1..], key);
        ConsDistinct(items[0], rest);
      }
    }
  }

  lemma {:induction false} StoredIs<T>(items: Items<T>, key: string, value: T)
    requires DistinctKeys(items)
    ensures forall x :: x in Stored(items, key, value) ==> x == (key, value) || (x in items && x.0 != key)
    ensures (key, value) in Stored(items, key, value)
    ensures forall x :: x in items && x.0 != key ==> x in Stored(items, key, value)
    ensures DistinctKeys(Stored(items, key, value))
  {
    if items == [] {
    } else {
      assert items == [items[0]] + items[1..];
      HeadKeyFresh(items);
      if items[0].0 == key {
        ConsDistinct((key, value), items[1..]);
      } else {
        StoredIs(items[1..], key, value);
        var rest := Stored(items[1..], key, value);
        ConsDistinct(items[0], rest);
      }
    }
  }

  lemma ReceiveKeeps(b: Bridge, c: Callback)
    requires Invariant(b)
    ensures Invariant(Receive(b, c))
  {
    hide Answer, Throws;
    LookupIs(b.pending, c.session);
    WithoutIs(b.pending, c.session);
    var v := Receive(b, c);
    if Lookup(b.pending, c.session).Some? {
      var id := Lookup(b.pending, c.session).value;
      assert Owns(b, (c.session, id));
      if !Throws(c) {
        SettledOne(b, v, id);
      } else {
        assert forall x :: Owns(b, x) ==> Owns(v, x);
      }
    } else {
      assert forall x :: Owns(b, x) ==> Owns(v, x);
    }
  }

  /** Settling one unsettled wait whose timer and registration go at the same time. */
  lemma SettledOne(b: Bridge, v: Bridge, id: int)
    requires Invariant(b) && Unsettled(b, id)
    requires |v.waits| == |b.waits| && v.waits[id].session == b.waits[id].session && |v.waits[id].settled| == 1
    requires forall j :: 0 <= j < |b.waits| && j != id ==> v.waits[j] == b.waits[j]
    requires v.timers == b.timers - {id} && v.spent == b.spent
    requires v.pending == Without(b.pending, b.waits[id].session)
    ensures Invariant(v)
  {
    WithoutIs(b.pending, b.waits[id].session);
    forall x | x in v.pending
      ensures Owns(v, x)
    {
      assert Owns(b, x) && x.1 != id;
    }
    assert forall j: int :: Unsettled(v, j) ==> Unsettled(b, j);
  }

  lemma RejectKeeps(b: Bridge, reason: Reason)
    requires Invariant(b)
    ensures Invariant(RejectPending(b, reason))
  {
    var v := RejectPending(b, reason);
    forall id | id in Ids(b.pending)
      ensures Unsettled(b, id)
    {
      var i :| 0 <= i < |b.pending| && b.pending[i].1 == id;
      assert Owns(b, b.pending[i]);
    }
    forall id: int | Unsettled(v, id)
      ensures Unsettled(b, id) && id !in Ids(b.pending)
    {
    }
  }

  lemma AwaitKeeps(b: Bridge, session: string, deadline: int)
    requires Invariant(b)
    ensures Invariant(Next(b, Await(session, deadline)))
  {
    var v := Next(b, Await(session, deadline));
    StoredIs(b.pending, session, |b.waits|);
    assert forall x :: Owns(b, x) ==> Owns(v, x);
    assert Owns(v, (session, |b.waits|));
    forall id: int | Unsettled(v, id)
      ensures id in v.timers || id in v.spent
    {
      assert id == |b.waits| || Unsettled(b, id);
    }
    assert forall id: int :: Unsettled(b, id) ==> Unsettled(v, id);
  }

  /** Every step keeps the invariant; each promise is settled at most once. */
  lemma StepKeeps(b: Bridge, event: Event)
    requires Invariant(b)
    ensures Invariant(Next(b, event))
  {
    hide CallbackOf, Receive, RejectPending, Registered, Without, Stored;
    match event
    case Open(url) => if CallbackOf(url).Some? { ReceiveKeeps(b, CallbackOf(url).value); }
    case Await(session, deadline) => AwaitKeeps(b, session, deadline);
    case Fire(id) => if id in b.timers { SettledOne(b, Next(b, event), id); }
    case Cleanup(now) => RejectKeeps(b, Expired(now));
    case Unmount => RejectKeeps(b, Unmounted);
  }

  lemma {:induction false} RunKeeps(events: seq<Event>)
    ensures Invariant(Run(events))
  {
    hide Invariant, Next;
    if events == [] {
      assert Invariant(EMPTY) by { EmptyInvariant(); }
    } else {
      RunKeeps(events[..|events| - 1]);
      StepKeeps(Run(events[..|events| - 1]), events[|events| - 1]);
    }
  }

  lemma EmptyInvariant()
    ensures Invariant(EMPTY)
  {
  }

  /** An unsettled wait loses its live timer without being settled exactly when a throwing callback hits it. */
  lemma StepLosesTimer(b: Bridge, event: Event, id: int)
    requires Invariant(b) && Unsettled(b, id) && id in b.timers
    ensures Unsettled(Next(b, event), id) && id !in Next(b, event).timers <==> Hits(b, event, id)
  {
    hide CallbackOf, Throws, Answer, Stored, Without;
    if event.Open? && CallbackOf(event.url).Some? {
      LookupIs(b.pending, CallbackOf(event.url).value.session);
    }
  }

  /** Which waits a step marks as spent. */
  lemma StepSpends(b: Bridge, event: Event, id: int)
    requires Invariant(b)
    ensures id in Next(b, event).spent <==> id in b.spent || Hits(b, event, id)
  {
    hide CallbackOf, Throws, Answer, Stored, Without, RejectAll;
  }

  lemma {:induction false} SpentExactly(events: seq<Event>, id: int)
    ensures id in Run(events).spent <==> exists i :: 0 <= i < |events| && Hits(Run(events[..i]), events[i], id)
  {
    hide Next, Hits, Run;
    if events == [] {
      RunEmpty();
    } else {
      var n := |events| - 1;
      SpentExactly(events[..n], id);
      RunKeeps(events[..n]);
      RunLast(events);
      StepSpends(Run(events[..n]), events[n], id);
      assert forall i :: 0 <= i < n ==> events[..n][..i] == events[..i] && events[..n][i] == events[i];
    }
  }

  lemma RunEmpty()
    ensures Run([]) == EMPTY
  {
  }

  lemma RunLast(events: seq<Event>)
    requires events != []
    ensures Run(events) == Next(Run(events[..|events| - 1]), events[|events| - 1])
  {
  }

  /**
   * Over every run, session ids freely reused: resolve or reject is called at most once per promise, and
   * an unsettled promise owns a live timer exactly when no throwing callback ever hit it.
   */
  lemma SettledAtMostOnce(events: seq<Event>, id: int)
    requires 0 <= id < |Run(events).waits|
    ensures |Run(events).waits[id].settled| <= 1
    ensures id in Run(events).timers ==> Run(events).waits[id].settled == []
    ensures Run(events).waits[id].settled == [] ==>
              (id in Run(events).timers <==> !exists i :: 0 <= i < |events| && Hits(Run(events[..i]), events[i], id))
  {
    hide Run, Hits;
    RunKeeps(events);
    SpentExactly(events, id);
    assert Run(events).waits[id].settled == [] <==> Unsettled(Run(events), id);
  }

  /** Who settles a promise, and with what: its own session's callback, its own timer, cleanup or unmount. */
  lemma SettledBy(b: Bridge, event: Event, id: int)
    requires Invariant(b) && 0 <= id < |b.waits|
    ensures id < |Next(b, event).waits| && Next(b, event).waits[id].session == b.waits[id].session
    ensures Next(b, event).waits[id].deadline == b.waits[id].deadline
    ensures b.waits[id].settled != [] ==> Next(b, event).waits[id] == b.waits[id]
    ensures Unsettled(b, id) && !Unsettled(Next(b, event), id) ==>
              match Next(b, event).waits[id].settled[0]
              case Rejected(TimedOut) => event == Fire(id)
              case Rejected(Expired(at)) => event == Cleanup(at)
              case Rejected(Unmounted) => event == Unmount
              case s => event.Open? && CallbackOf(event.url).Some?
                        && CallbackOf(event.url).value.session == b.waits[id].session
                        && s == Answer(CallbackOf(event.url).value)
  {
    hide CallbackOf, Throws, Stored, Without, ErrorOf;
    if event.Open? && CallbackOf(event.url).Some? {
      var c := CallbackOf(event.url).value;
      LookupIs(b.pending, c.session);
      if Lookup(b.pending, c.session).Some? {
        assert Owns(b, (c.session, Lookup(b.pending, c.session).value));
      }
    } else if event.Cleanup? || event.Unmount? {
      PendingUnsettled(b);
    }
  }

  lemma PendingUnsettled(b: Bridge)
    requires Invariant(b)
    ensures forall id :: id in Ids(b.pending) ==> Unsettled(b, id)
  {
    forall id | id in Ids(b.pending)
      ensures Unsettled(b, id)
    {
      var i :| 0 <= i < |b.pending| && b.pending[i].1 == id;
      assert Owns(b, b.pending[i]);
    }
  }

  // ---- Which events settle a wait, and with what ----

  /** Exactly which URLs are accepted, and as which callback. */
  lemma CallbackIs(url: Url, c: Callback)
    ensures CallbackOf(url) == Some(c) <==>
              Carries(url, c.session, c.action, c.data) && c.timestamp == url.timestamp
  {
  }

  lemma OutcomeIs(c: Callback)
    ensures Outcome(c.action, c.data) == if Throws(c) then None else Some(Answer(c))
  {
    assert Stringable(JString("Unknown error"));
  }

  lemma OpenSettles(b: Bridge, url: Url, id: int)
    requires Invariant(b) && 0 <= id < |b.waits|
    ensures id < |Next(b, Open(url)).waits|
    ensures forall s :: Settles(b, Open(url), id, s) ==> b.waits[id].settled == []
    ensures forall s :: Settles(b, Open(url), id, s) ==> Next(b, Open(url)).waits[id].settled == [s]
    ensures (forall s :: !Settles(b, Open(url), id, s)) ==> Next(b, Open(url)).waits[id] == b.waits[id]
  {
    hide Throws, Answer, Outcome, Carries, Without, Lookup, CallbackOf;
    if CallbackOf(url).Some? {
      var c := CallbackOf(url).value;
      CallbackIs(url, c);
      OutcomeIs(c);
      CarriedData(url, c);
      LookupEntry(b, (c.session, id));
      if RegisteredAs(b, id) {
        OwnedBy(b, id);
      }
      if !Throws(c) && RegisteredAs(b, id) && b.waits[id].session == c.session {
        assert Settles(b, Open(url), id, Answer(c));
      }
    } else {
      NotCarried(b, url, id);
    }
  }

  lemma OpenSettlesAll(b: Bridge, url: Url)
    requires Invariant(b)
    ensures forall id, s :: Settles(b, Open(url), id, s) ==>
              0 <= id < |Next(b, Open(url)).waits| && Next(b, Open(url)).waits[id].settled == [s]
  {
    hide Invariant, Settles, Next;
    forall id, s | Settles(b, Open(url), id, s)
      ensures 0 <= id < |Next(b, Open(url)).waits| && Next(b, Open(url)).waits[id].settled == [s]
    {
      SettlesKnown(b, Open(url), id, s);
      OpenSettles(b, url, id);
    }
  }

  lemma CarriedData(url: Url, c: Callback)
    requires Carries(url, c.session, c.action, c.data)
    ensures url.Query? && url.action == c.action && url.session == c.session && DataOf(url) == c.data
    ensures forall session :: Carries(url, session, url.action, DataOf(url)) <==> session == c.session
  {
  }

  lemma NotCarried(b: Bridge, url: Url, id: int)
    requires CallbackOf(url).None?
    ensures forall s :: !Settles(b, Open(url), id, s)
  {
  }

  lemma RejectSettles(b: Bridge, reason: Reason, id: int)
    requires Invariant(b) && 0 <= id < |b.waits|
    ensures RegisteredAs(b, id) ==> b.waits[id].settled == []
    ensures |RejectPending(b, reason).waits| == |b.waits|
    ensures RejectPending(b, reason).waits[id].settled ==
              if RegisteredAs(b, id) then [Rejected(reason)] else b.waits[id].settled
  {
    PendingIds(b.pending, (b.waits[id].session, id));
    if id in Ids(b.pending) {
      var i :| 0 <= i < |b.pending| && b.pending[i].1 == id;
      EntryOwned(b, b.pending[i]);
    }
  }

  lemma SettlesStep(b: Bridge, event: Event, id: int, s: Settlement)
    requires Invariant(b) && 0 <= id < |b.waits|
    ensures id < |Next(b, event).waits|
    ensures Settles(b, event, id, s) ==> b.waits[id].settled == []
    ensures Next(b, event).waits[id].settled == [s] <==> b.waits[id].settled == [s] || Settles(b, event, id, s)
  {
    hide RegisteredAs, RejectPending, Outcome, Carries, Lookup, Without, Stored, Receive, CallbackOf;
    match event
    case Open(url) =>
      OpenSettles(b, url, id);
      OpenOnce(b, url, id, s);
    case Cleanup(now) =>
      RejectSettles(b, Expired(now), id);
      OneOf(Rejected(Expired(now)), s);
    case Unmount =>
      RejectSettles(b, Unmounted, id);
      OneOf(Rejected(Unmounted), s);
    case Fire(other) =>
      if other == id && id in b.timers {
        assert Unsettled(b, id) && [] + [Rejected(TimedOut)] == [Rejected(TimedOut)];
        OneOf(Rejected(TimedOut), s);
      }
    case Await(_, _) =>
  }

  lemma OneOf(a: Settlement, b: Settlement)
    ensures [a] == [b] <==> a == b
  {
    assert [a][0] == a && [b][0] == b;
  }

  lemma OpenOnce(b: Bridge, url: Url, id: int, s: Settlement)
    ensures forall t :: Settles(b, Open(url), id, t) && Settles(b, Open(url), id, s) ==> t == s
  {
    hide RegisteredAs, Outcome, Carries;
  }

  /**
   * Over every run: a promise is settled with `s` exactly when an event that settles it so met it: a callback for
   * its session while it was registered, its own live timer, a cleanup or an unmount while it was registered.
   */
  lemma {:induction false} SettledExactly(events: seq<Event>, id: int, s: Settlement)
    requires 0 <= id < |Run(events).waits|
    ensures Run(events).waits[id].settled == [s] <==>
              exists i :: 0 <= i < |events| && Settles(Run(events[..i]), events[i], id, s)
    decreases |events|
  {
    hide Next, Run, Settles, Invariant;
    if events == [] {
      RunEmpty();
      assert false;
    } else {
      var n := |events| - 1;
      var before := Run(events[..n]);
      RunLast(events);
      RunKeeps(events[..n]);
      CountGrows(before, events[n]);
      assert forall i :: 0 <= i < n ==> events[..n][..i] == events[..i] && events[..n][i] == events[i];
      if id < |before.waits| {
        SettledExactly(events[..n], id, s);
        SettlesStep(before, events[n], id, s);
      } else {
        forall i | 0 <= i <= n
          ensures !Settles(Run(events[..i]), events[i], id, s)
        {
          assert events[..n][..i] == events[..i];
          WaitsGrow(events[..n], i);
          SettlesKnown(Run(events[..i]), events[i], id, s);
        }
      }
    }
  }

  lemma SettlesKnown(b: Bridge, event: Event, id: int, s: Settlement)
    ensures Settles(b, event, id, s) ==> 0 <= id < |b.waits|
  {
  }

  /** A window event is dispatched exactly for an accepted callback that finds no wait registered for its session. */
  lemma DispatchedExactly(b: Bridge, event: Event)
    requires Invariant(b)
    ensures var more := Next(b, event).dispatched;
            if event.Open? && CallbackOf(event.url).Some?
               && (forall id :: RegisteredAs(b, id) ==> b.waits[id].session != CallbackOf(event.url).value.session)
            then more == b.dispatched + [CallbackOf(event.url).value] else more == b.dispatched
  {
    hide CallbackOf, Throws, Answer, Without, Stored, Settle, RejectAll;
    if event.Open? && CallbackOf(event.url).Some? {
      var c := CallbackOf(event.url).value;
      LookupIs(b.pending, c.session);
      if Lookup(b.pending, c.session).Some? {
        var id := Lookup(b.pending, c.session).value;
        assert Owns(b, (c.session, id));
        assert RegisteredAs(b, id) && b.waits[id].session == c.session;
      } else {
        forall id | RegisteredAs(b, id)
          ensures b.waits[id].session != c.session
        {
          LookupEntry(b, (b.waits[id].session, id));
        }
      }
    }
  }

  /** A resolved promise got the data of a callback for its own session that arrived while it waited. */
  lemma {:induction false} ResolvedByOwnSession(events: seq<Event>, id: int, value: Json)
    requires 0 <= id < |Run(events).waits| && Run(events).waits[id].settled == [Resolved(value)]
    ensures exists i :: 0 <= i < |events| && AnsweredAt(events, i, id, value)
    decreases |events|
  {
    hide Next, CallbackOf, Invariant;
    var n := |events| - 1;
    var before := Run(events[..n]);
    RunKeeps(events[..n]);
    CountGrows(before, events[n]);
    if id < |before.waits| {
      SettledBy(before, events[n], id);
      if before.waits[id].settled != [] {
        ResolvedByOwnSession(events[..n], id, value);
        var i :| 0 <= i < n && AnsweredAt(events[..n], i, id, value);
        assert events[..n][..i] == events[..i];
        assert AnsweredAt(events, i, id, value);
      } else {
        assert AnsweredAt(events, n, id, value);
      }
    }
  }

  lemma CountGrows(b: Bridge, event: Event)
    ensures |b.waits| <= |Next(b, event).waits| <= |b.waits| + 1
    ensures |Next(b, event).waits| == |b.waits| + 1 ==> Unsettled(Next(b, event), |b.waits|)
  {
    hide CallbackOf, Throws, Answer, Stored, Without, Ids, Lookup;
  }

  predicate AnsweredAt(events: seq<Event>, i: int, id: int, value: Json)
    requires 0 <= i < |events|
  {
    && 0 <= id < |Run(events[..i]).waits|
    && events[i].Open? && CallbackOf(events[i].url).Some?
    && CallbackOf(events[i].url).value.session == Run(events[..i]).waits[id].session
    && CallbackOf(events[i].url).value.action != "error"
    && CallbackOf(events[i].url).value.data == value
  }

  /** Unmounting settles exactly the registered waits: those displaced by a later wait live on by their timers. */
  lemma AfterUnmount(events: seq<Event>, id: int)
    requires 0 <= id < |Run(events).waits|
    ensures var b := Run(events); var v := Next(b, Unmount);
            && v.pending == []
            && (Unsettled(v, id) <==> Unsettled(b, id) && Lookup(b.pending, b.waits[id].session) != Some(id))
  {
    hide Run;
    var b := Run(events);
    RunKeeps(events);
    LookupIs(b.pending, b.waits[id].session);
    if id in Ids(b.pending) {
      var i :| 0 <= i < |b.pending| && b.pending[i].1 == id;
      assert Owns(b, b.pending[i]);
    }
  }

  /** With no timer and no registration, nothing that can still happen settles a wait. */
  predicate Stranded(b: Bridge, id: int) { Unsettled(b, id) && id !in b.timers && id !in Ids(b.pending) }

  lemma StrandedStays(b: Bridge, event: Event, id: int)
    requires Invariant(b) && Stranded(b, id)
    ensures Stranded(Next(b, event), id)
  {
    hide CallbackOf, Throws, Answer, Registered;
    var v := Next(b, event);
    match event
    case Open(url) =>
      if CallbackOf(url).Some? {
        var c := CallbackOf(url).value;
        LookupIs(b.pending, c.session);
        WithoutIs(b.pending, c.session);
        FewerIds(b.pending, v.pending);
      }
    case Await(session, _) =>
      assert DistinctKeys(b.pending) by { assert Registered(b); RegisteredDistinct(b); }
      StoredIs(b.pending, session, |b.waits|);
      NewIds(b.pending, v.pending, session, |b.waits|);
    case Fire(other) =>
      if other in b.timers {
        WithoutIs(b.pending, b.waits[other].session);
        FewerIds(b.pending, v.pending);
      }
    case Cleanup(_) =>
    case Unmount =>
  }

  lemma RegisteredDistinct(b: Bridge)
    requires Registered(b)
    ensures DistinctKeys(b.pending)
  {
  }

  lemma FewerIds(before: Items<int>, after: Items<int>)
    requires forall x :: x in after ==> x in before
    ensures Ids(after) <= Ids(before)
  {
    forall id | id in Ids(after)
      ensures id in Ids(before)
    {
      var i :| 0 <= i < |after| && after[i].1 == id;
      assert after[i] in before;
    }
  }

  lemma NewIds(before: Items<int>, after: Items<int>, session: string, added: int)
    requires forall x :: x in after ==> x == (session, added) || x in before
    ensures Ids(after) <= Ids(before) + {added}
  {
    forall id | id in Ids(after)
      ensures id in Ids(before) + {added}
    {
      var i :| 0 <= i < |after| && after[i].1 == id;
      assert after[i] == (session, added) || after[i] in before;
    }
  }

  lemma {:induction false} StrandedForever(b: Bridge, events: seq<Event>, id: int)
    requires Invariant(b) && Stranded(b, id)
    ensures Invariant(RunFrom(b, events)) && Stranded(RunFrom(b, events), id)
  {
    hide Invariant, Stranded, Next;
    if events == [] {
    } else {
      StrandedForever(b, events[..|events| - 1], id);
      var before := RunFrom(b, events[..|events| - 1]);
      StepKeeps(before, events[|events| - 1]);
      StrandedStays(before, events[|events| - 1], id);
    }
  }

  /**
   * The exception is reachable: an error callback whose `error` shadows toString clears the timer and
   * throws; a second wait under the same session id then displaces the first, which never settles.
   */
  lemma ThrowingCallbackStrands(b: Bridge, session: string, d: int, d': int, fields: map<string, Json>,
                                rest: seq<Event>)
    requires Invariant(b) && session != "" && "toString" in fields
    ensures var url := Query(session, "error", Some(Parsed(JObject(map["error" := JObject(fields)]))), None);
            var v := Next(Next(Next(b, Await(session, d)), Open(url)), Await(session, d'));
            Stranded(RunFrom(v, rest), |b.waits|)
  {
    var url := Query(session, "error", Some(Parsed(JObject(map["error" := JObject(fields)]))), None);
    var c := Callback(session, "error", JObject(map["error" := JObject(fields)]), None);
    assert CallbackOf(url) == Some(c) && Throws(c);
    ThrowStrands(b, url, c, d, d');
    StrandedForever(Next(Next(Next(b, Await(session, d)), Open(url)), Await(session, d')), rest, |b.waits|);
  }

  lemma ThrowStrands(b: Bridge, url: Url, c: Callback, d: int, d': int)
    requires Invariant(b) && CallbackOf(url) == Some(c) && Throws(c)
    ensures var v := Next(Next(Next(b, Await(c.session, d)), Open(url)), Await(c.session, d'));
            Invariant(v) && Stranded(v, |b.waits|)
  {
    hide CallbackOf, Throws, Lookup, Stored;
    var n := |b.waits|;
    var b1 := Next(b, Await(c.session, d));
    var b2 := Next(b1, Open(url));
    var b3 := Next(b2, Await(c.session, d'));
    StepKeeps(b, Await(c.session, d));
    StepKeeps(b1, Open(url));
    StepKeeps(b2, Await(c.session, d'));
    StoredIs(b.pending, c.session, n);
    LookupIs(b1.pending, c.session);
    assert Lookup(b1.pending, c.session) == Some(n) by {
      var i :| 0 <= i < |b1.pending| && b1.pending[i] == (c.session, n);
    }
    StoredIs(b2.pending, c.session, n + 1);
    forall x | x in b3.pending
      ensures x.1 != n
    {
      if x != (c.session, n + 1) {
        assert x in b1.pending && x.0 != c.session;
        assert Owns(b, x);
      }
    }
    assert n !in Ids(b3.pending);
  }

  /** A step leaves an unsettled wait registered exactly when it was and the step does not unregister it. */
  lemma StepRegistered(b: Bridge, event: Event, id: int)
    requires Invariant(b) && Unsettled(b, id) && Unsettled(Next(b, event), id)
    ensures RegisteredAs(Next(b, event), id) <==> RegisteredAs(b, id) && !Unregisters(b, event, id)
  {
    hide CallbackOf, Throws, Answer, Stored, Without, Lookup, Owns;
    var session := b.waits[id].session;
    match event
    case Open(url) =>
      if CallbackOf(url).Some? {
        var c := CallbackOf(url).value;
        WithoutIs(b.pending, c.session);
        if RegisteredAs(b, id) && c.session == session {
          LookupEntry(b, (session, id));
        }
      }
    case Await(other, _) => StoredIs(b.pending, other, |b.waits|);
    case Fire(other) => if other in b.timers { WithoutIs(b.pending, b.waits[other].session); }
    case Cleanup(_) => PendingIds(b.pending, (session, id));
    case Unmount => PendingIds(b.pending, (session, id));
  }

  lemma PendingIds(pending: Items<int>, entry: (string, int))
    ensures entry in pending ==> entry.1 in Ids(pending)
  {
    if entry in pending {
      var i :| 0 <= i < |pending| && pending[i] == entry;
    }
  }

  lemma LookupEntry(b: Bridge, entry: (string, int))
    requires Registered(b)
    ensures entry in b.pending <==> Lookup(b.pending, entry.0) == Some(entry.1)
  {
    LookupIs(b.pending, entry.0);
    if entry in b.pending {
      var i :| 0 <= i < |b.pending| && b.pending[i] == entry;
    }
  }

  /**
   * An accepted callback settles an unsettled wait of its session exactly when the wait is still
   * registered and the callback does not throw.
   */
  lemma CallbackSettles(b: Bridge, c: Callback, id: int)
    requires Invariant(b) && Unsettled(b, id) && b.waits[id].session == c.session
    ensures !Unsettled(Receive(b, c), id) <==> RegisteredAs(b, id) && !Throws(c)
  {
    hide Throws, Answer, Lookup, Without;
    LookupEntry(b, (c.session, id));
  }

  /**
   * Over every run an unsettled wait is still registered exactly when no later wait took its session id
   * and no other wait's timer fired under it.
   */
  lemma {:induction false} RegisteredExactly(events: seq<Event>, id: int)
    requires Unsettled(Run(events), id)
    ensures RegisteredAs(Run(events), id) <==>
              !exists i :: 0 <= i < |events| && Unregisters(Run(events[..i]), events[i], id)
    decreases |events|
  {
    hide Next, Unregisters, RegisteredAs, Run, Unsettled, Invariant;
    NoneUnsettled(id);
    if events == [] {
      assert false;
    } else {
      var n := |events| - 1;
      var before := Run(events[..n]);
      RunLast(events);
      RunKeeps(events[..n]);
      assert forall i :: 0 <= i < n ==> events[..n][..i] == events[..i] && events[..n][i] == events[i];
      if 0 <= id < |before.waits| {
        SettledBy(before, events[n], id);
        StillUnsettled(before, events[n], id);
        RegisteredExactly(events[..n], id);
        StepRegistered(before, events[n], id);
      } else {
        NewlyRegistered(before, events[n], id);
        forall i | 0 <= i <= n
          ensures !Unregisters(Run(events[..i]), events[i], id)
        {
          assert events[..n][..i] == events[..i];
          WaitsGrow(events[..n], i);
          UnregistersKnown(Run(events[..i]), events[i], id);
        }
      }
    }
  }

  /** A wait can never be settled any more exactly when a throwing callback hit it and its registration was lost. */
  lemma StrandedExactly(events: seq<Event>, id: int)
    requires Unsettled(Run(events), id)
    ensures Stranded(Run(events), id) <==>
              && (exists i :: 0 <= i < |events| && Hits(Run(events[..i]), events[i], id))
              && (exists i :: 0 <= i < |events| && Unregisters(Run(events[..i]), events[i], id))
  {
    hide Run, Hits, Unregisters, Owns;
    RunKeeps(events);
    SettledAtMostOnce(events, id);
    RegisteredExactly(events, id);
    var b := Run(events);
    PendingIds(b.pending, (b.waits[id].session, id));
    if id in Ids(b.pending) {
      var i :| 0 <= i < |b.pending| && b.pending[i].1 == id;
      EntryOwned(b, b.pending[i]);
      OwnedSession(b, b.pending[i]);
    }
  }

  lemma OwnedSession(b: Bridge, entry: (string, int))
    requires Owns(b, entry)
    ensures b.waits[entry.1].session == entry.0
  {
  }

  lemma NoneUnsettled(id: int)
    ensures !Unsettled(Run([]), id)
  {
  }

  lemma StillUnsettled(b: Bridge, event: Event, id: int)
    requires Invariant(b) && 0 <= id < |b.waits| && Unsettled(Next(b, event), id)
    ensures Unsettled(b, id)
  {
    hide Invariant, Next;
    SettledBy(b, event, id);
  }

  lemma NewlyRegistered(b: Bridge, event: Event, id: int)
    requires Invariant(b) && !(0 <= id < |b.waits|) && Unsettled(Next(b, event), id)
    ensures id == |b.waits| && RegisteredAs(Next(b, event), id)
  {
    hide CallbackOf, Throws, Answer, Stored, Without, Lookup;
    if event.Await? {
      StoredIs(b.pending, event.session, |b.waits|);
    }
  }

  lemma UnregistersKnown(b: Bridge, event: Event, id: int)
    ensures Unregisters(b, event, id) ==> 0 <= id < |b.waits|
  {
  }

  lemma {:induction false} WaitsGrow(events: seq<Event>, k: nat)
    requires k <= |events|
    ensures |Run(events[..k]).waits| <= |Run(events).waits|
  {
    hide Next, Run;
    if k == |events| {
      assert events[..k] == events;
    } else {
      var n := |events| - 1;
      assert events[..n][..k] == events[..k];
      WaitsGrow(events[..n], k);
      RunLast(events);
      CountGrows(Run(events[..n]), events[n]);
    }
  }

  /** A displaced wait's timer drops the registration of the wait that displaced it: its answer goes astray. */
  lemma OlderTimerDropsNewer(b: Bridge, c: Callback, d: int, d': int)
    ensures var n := |b.waits|;
            var fired := Next(Next(Next(b, Await(c.session, d)), Await(c.session, d')), Fire(n));
            && Unsettled(fired, n + 1) && n + 1 in fired.timers
            && Unsettled(Receive(fired, c), n + 1)
            && Receive(fired, c).dispatched == b.dispatched + [c]
  {
    hide Answer, Throws, Lookup, Without, Stored, Invariant;
    var b2 := Next(Next(b, Await(c.session, d)), Await(c.session, d'));
    var rest := Without(b2.pending, c.session);
    NoneLeft(b2.pending, c.session);
    assert Next(b2, Fire(|b.waits|)).pending == rest;
  }

  lemma NoneLeft(items: Items<int>, key: string)
    ensures Lookup(Without(items, key), key) == None
  {
    WithoutIs(items, key);
    LookupIs(Without(items, key), key);
  }

  // ---- The periodic cleanup ----

  /** A cleanup rejects exactly the registered waits, due or not. */
  lemma CleanupRejects(b: Bridge, now: int, id: int)
    requires Invariant(b) && 0 <= id < |b.waits|
    ensures Next(b, Cleanup(now)).waits[id].settled ==
              if RegisteredAs(b, id) then [Rejected(Expired(now))] else b.waits[id].settled
  {
    PendingIds(b.pending, (b.waits[id].session, id));
    if id in Ids(b.pending) {
      var i :| 0 <= i < |b.pending| && b.pending[i].1 == id;
      EntryOwned(b, b.pending[i]);
    }
  }

  /** Over every run: which waits ended as expired, and when. */
  lemma ExpiredExactly(events: seq<Event>, id: int, at: int)
    requires 0 <= id < |Run(events).waits|
    ensures Run(events).waits[id].settled == [Rejected(Expired(at))] <==>
              exists i :: 0 <= i < |events| && Sweeps(Run(events[..i]), events[i], id) && events[i].now == at
  {
    hide Run, RegisteredAs;
    SettledExactly(events, id, Rejected(Expired(at)));
    forall i | 0 <= i < |events|
      ensures Settles(Run(events[..i]), events[i], id, Rejected(Expired(at))) <==>
                Sweeps(Run(events[..i]), events[i], id) && events[i].now == at
    {
      SweepsKnown(Run(events[..i]), events[i], id);
      Remote(Run(events[..i]), events[i], id, Rejected(Expired(at)));
    }
  }

  /** A callback never expires a wait. */
  lemma Remote(b: Bridge, event: Event, id: int, s: Settlement)
    ensures Settles(b, event, id, s) && event.Open? ==> s.Resolved? || s.reason.Remote?
  {
  }

  lemma OnceSettled(b: Bridge, id: int)
    requires Invariant(b) && 0 <= id < |b.waits|
    ensures |b.waits[id].settled| <= 1
  {
  }

  lemma OwnedBy(b: Bridge, id: int)
    requires Invariant(b) && RegisteredAs(b, id)
    ensures b.waits[id].settled == []
  {
    EntryOwned(b, (b.waits[id].session, id));
  }

  lemma SweepsKnown(b: Bridge, event: Event, id: int)
    ensures Sweeps(b, event, id) ==> 0 <= id < |b.waits|
  {
  }

  /**
   * Over every run a wait is rejected as expired before it is due exactly when some cleanup came before its
   * deadline and found it registered: its age is never looked at.
   */
  lemma ExpiredEarly(events: seq<Event>, id: int)
    requires 0 <= id < |Run(events).waits|
    ensures var w := Run(events).waits[id];
            (exists at :: at < w.deadline && w.settled == [Rejected(Expired(at))]) <==>
              exists i :: 0 <= i < |events| && SweepsEarly(Run(events[..i]), events[i], id)
  {
    hide Run, RegisteredAs;
    if at :| at < Run(events).waits[id].deadline && Run(events).waits[id].settled == [Rejected(Expired(at))] {
      ExpiredExactly(events, id, at);
      var i :| 0 <= i < |events| && Sweeps(Run(events[..i]), events[i], id) && events[i].now == at;
      SweepsKnown(Run(events[..i]), events[i], id);
      DeadlineStays(events, i, id);
      assert SweepsEarly(Run(events[..i]), events[i], id);
    }
    if i :| 0 <= i < |events| && SweepsEarly(Run(events[..i]), events[i], id) {
      SweepsKnown(Run(events[..i]), events[i], id);
      DeadlineStays(events, i, id);
      ExpiredExactly(events, id, events[i].now);
    }
  }

  lemma {:induction false} DeadlineStays(events: seq<Event>, k: nat, id: int)
    requires k <= |events| && 0 <= id < |Run(events[..k]).waits|
    ensures id < |Run(events).waits| && Run(events).waits[id].deadline == Run(events[..k]).waits[id].deadline
    decreases |events|
  {
    hide Next, Run;
    if k == |events| {
      assert events[..k] == events;
    } else {
      var n := |events| - 1;
      assert events[..n][..k] == events[..k];
      DeadlineStays(events[..n], k, id);
      RunLast(events);
      RunKeeps(events[..n]);
      SettledBy(Run(events[..n]), events[n], id);
    }
  }

  /** A cleanup that comes right after a wait was made rejects it, whatever its timeout. */
  lemma ExpiresAtOnce(b: Bridge, session: string, now: int, timeout: nat)
    requires Invariant(b) && timeout > 0
    ensures var v := Next(Next(b, Await(session, now + timeout)), Cleanup(now));
            v.waits[|b.waits|].settled == [Rejected(Expired(now))] && now < v.waits[|b.waits|].deadline
  {
    hide Invariant;
    var w := Next(b, Await(session, now + timeout));
    StepKeeps(b, Await(session, now + timeout));
    PendingDistinct(b);
    StoredIs(b.pending, session, |b.waits|);
    CleanupRejects(w, now, |b.waits|);
  }

  lemma PendingDistinct(b: Bridge)
    requires Invariant(b)
    ensures DistinctKeys(b.pending)
  {
  }

  // ---- The callback history ----

  function Accepted(events: seq<Event>): seq<Callback> {
    if events == [] then []
    else
      var e := events[|events| - 1];
      Accepted(events[..|events| - 1]) + if e.Open? && CallbackOf(e.url).Some? then [CallbackOf(e.url).value] else []
  }

  function Newest(all: seq<Callback>, limit: nat): (r: seq<Callback>)
    ensures |r| == if |all| < limit then |all| else limit
    ensures forall i :: 0 <= i < |r| ==> r[i] == all[|all| - 1 - i]
  {
    if limit == 0 || all == [] then [] else [all[|all| - 1]] + Newest(all[..|all| - 1], limit - 1)
  }

  /** The history holds the newest fifty accepted callbacks, latest first. */
  lemma {:induction false} HistoryIsNewest(events: seq<Event>)
    ensures Run(events).history == Newest(Accepted(events), 50)
    ensures Run(events).last == if Accepted(events) == [] then None else Some(Accepted(events)[|Accepted(events)| - 1])
  {
    hide Newest, Next, CallbackOf, RunFrom;
    if events == [] {
      RunEmpty();
      NewestOfNone();
    } else {
      var before := events[..|events| - 1];
      HistoryIsNewest(before);
      RunLast(events);
      HistoryStep(Run(before), events[|events| - 1]);
      var e := events[|events| - 1];
      if e.Open? && CallbackOf(e.url).Some? {
        NewestSnoc(Accepted(before), CallbackOf(e.url).value, HISTORY_LIMIT);
      }
    }
  }

  lemma NewestOfNone()
    ensures Newest([], HISTORY_LIMIT) == []
  {
  }

  lemma HistoryStep(b: Bridge, e: Event)
    ensures var v := Next(b, e);
            if e.Open? && CallbackOf(e.url).Some? then
              var h := [CallbackOf(e.url).value] + b.history;
              v.history == (if |h| > HISTORY_LIMIT then h[..HISTORY_LIMIT] else h) && v.last == Some(h[0])
            else v.history == b.history && v.last == b.last
  {
    hide CallbackOf, Throws, Answer, Stored, Without, Settle, RejectAll;
  }

  lemma NewestSnoc(all: seq<Callback>, c: Callback, limit: nat)
    requires limit > 0
    ensures var h := [c] + Newest(all, limit);
            (if |h| > limit then h[..limit] else h) == Newest(all + [c], limit)
  {
    hide Newest;
  }

  // ---- The bridge itself ----

  lemma EntryOwned(b: Bridge, entry: (string, int))
    requires Invariant(b) && entry in b.pending
    ensures Owns(b, entry)
  {
  }

  class DeepLinkBridge {
    /** Every promise handed out, with the settling calls made on it. */
    var promises: seq<Wait>
    var timers: set<int>
    var pendingRequests: Items<int>
    var callbackHistory: seq<Callback>
    var lastCallback: Option<Callback>
    var dispatched: seq<Callback>
    ghost var spent: set<int>

    constructor ()
      ensures View() == EMPTY
    {
      promises, timers, pendingRequests, callbackHistory, lastCallback, dispatched := [], {}, [], [], None, [];
      spent := {};
    }

    ghost function View(): Bridge
      reads this
    {
      Bridge(promises, timers, pendingRequests, callbackHistory, lastCallback, dispatched, spent)
    }

    ghost predicate Valid()
      reads this
    {
      Invariant(View())
    }

    method HandleAppUrlOpen(url: Url)
      requires Valid()
      modifies this
      ensures Valid() && View() == Next(old(View()), Open(url))
      ensures forall id, s :: Settles(old(View()), Open(url), id, s) ==>
                id < |promises| && promises[id].settled == [s]
    {
      hide Invariant, Throws, Answer, Settles;
      StepKeeps(View(), Open(url));
      OpenSettlesAll(View(), url);
      var parsed := CallbackOf(url);
      if parsed.None? {
        return;
      }
      var callback := parsed.value;
      callbackHistory := [callback] + callbackHistory;
      if |callbackHistory| > HISTORY_LIMIT {
        callbackHistory := callbackHistory[..HISTORY_LIMIT];
      }
      lastCallback := Some(callback);
      var pendingRequest := Lookup(pendingRequests, callback.session);
      if pendingRequest.Some? {
        var id := pendingRequest.value;
        LookupIs(pendingRequests, callback.session);
        EntryOwned(old(View()), (callback.session, id));
        timers := timers - {id};
        if Throws(callback) {
          spent := spent + {id};
          return;
        }
        promises := Settle(promises, id, Answer(callback));
        pendingRequests := Without(pendingRequests, callback.session);
      } else {
        dispatched := dispatched + [callback];
      }
    }

    /** The default timeout is a minute. */
    method WaitForDeepLinkResponse(sessionId: string, now: int, timeout: int := 60000) returns (id: int)
      requires Valid()
      modifies this
      ensures Valid() && View() == Next(old(View()), Await(sessionId, now + timeout))
      ensures id == |old(promises)|
    {
      StepKeeps(View(), Await(sessionId, now + timeout));
      id := |promises|;
      promises := promises + [Wait(sessionId, now + timeout, [])];
      timers := timers + {id};
      pendingRequests := Stored(pendingRequests, sessionId, id);
    }

    /** The timeout callback of wait `id`, run only while its timer is live. */
    method TimeoutElapses(id: int)
      requires Valid() && id in timers
      modifies this
      ensures Valid() && View() == Next(old(View()), Fire(id))
    {
      StepKeeps(View(), Fire(id));
      timers := timers - {id};
      pendingRequests := Without(pendingRequests, promises[id].session);
      promises := Settle(promises, id, Rejected(TimedOut));
    }

    /** `now` is read and recorded, never compared. */
    method CleanupExpiredRequests(now: int)
      requires Valid()
      modifies this
      ensures Valid() && View() == Next(old(View()), Cleanup(now))
    {
      var expired := pendingRequests;
      StepKeeps(View(), Cleanup(now));
      for k := 0 to |expired|
        invariant pendingRequests == expired[k..]
        invariant promises == RejectAll(old(promises), Ids(expired[..k]), Expired(now))
        invariant timers == old(timers) - Ids(expired[..k])
        invariant unchanged(this`callbackHistory) && unchanged(this`lastCallback) && unchanged(this`dispatched)
                  && unchanged(this`spent)
      {
        var sessionId := expired[k].0;
        var request := Lookup(pendingRequests, sessionId);
        if request.Some? {
          RejectOneMore(old(View()), k, Expired(now));
          WithoutHead(expired[k..]);
          timers := timers - {request.value};
          promises := Settle(promises, request.value, Rejected(Expired(now)));
          pendingRequests := Without(pendingRequests, sessionId);
        }
      }
      assert expired[..|expired|] == expired;
    }

    method OnUnmounted()
      requires Valid()
      modifies this
      ensures Valid() && View() == Next(old(View()), Unmount)
    {
      StepKeeps(View(), Unmount);
      for k := 0 to |pendingRequests|
        invariant pendingRequests == old(pendingRequests)
        invariant promises == RejectAll(old(promises), Ids(pendingRequests[..k]), Unmounted)
        invariant timers == old(timers) - Ids(pendingRequests[..k])
        invariant unchanged(this`callbackHistory) && unchanged(this`lastCallback) && unchanged(this`dispatched)
                  && unchanged(this`spent)
      {
        RejectOneMore(old(View()), k, Unmounted);
        timers := timers - {pendingRequests[k].1};
        promises := Settle(promises, pendingRequests[k].1, Rejected(Unmounted));
      }
      assert pendingRequests[..|pendingRequests|] == pendingRequests;
      pendingRequests := [];
    }
  }

  lemma RejectOneMore(b: Bridge, k: nat, reason: Reason)
    requires Invariant(b) && k < |b.pending|
    ensures Ids(b.pending[..k + 1]) == Ids(b.pending[..k]) + {b.pending[k].1}
    ensures 0 <= b.pending[k].1 < |b.waits|
    ensures RejectAll(b.waits, Ids(b.pending[..k + 1]), reason)
         == Settle(RejectAll(b.waits, Ids(b.pending[..k]), reason), b.pending[k].1, Rejected(reason))
  {
    var all, id := b.pending, b.pending[k].1;
    assert Owns(b, all[k]);
    forall i | 0 <= i < k
      ensures all[i].1 != id
    {
      assert Owns(b, all[i]);
    }
    assert forall i :: 0 <= i < k ==> all[..k + 1][i] == all[..k][i];
    assert all[..k + 1][k] == all[k];
    forall x | x in Ids(all[..k]) + {id}
      ensures x in Ids(all[..k + 1])
    {
      if x == id {
        assert all[..k + 1][k].1 == id;
      } else {
        var i :| 0 <= i < k && all[..k][i].1 == x;
        assert all[..k + 1][i].1 == x;
      }
    }
    assert id !in Ids(all[..k]);
  }

  lemma WithoutHead<T>(items: Items<T>)
    requires items != [] && DistinctKeys(items)
    ensures Lookup(items, items[0].0) == Some(items[0].1)
    ensures Without(items, items[0].0) == items[1..]
  {
    HeadKeyFresh(items);
    WithoutAbsent(items[1..], items[0].0);
  }

  lemma {:induction false} WithoutAbsent<T>(items: Items<T>, key: string)
    requires forall x :: x in items ==> x.0 != key
    ensures Without(items, key) == items
  {
    if items == [] {
    } else {
      assert items[0] in items;
      WithoutAbsent(items[1..], key);
    }
  }
}
