// The extension's background worker, client/entrypoints/background.ts: content messages queue while
// the WASM core is not ready, and drains hand them over, possibly several drains at once.

module Background {
  /** What started a drain: the first WASM load, or a reload after an environment change. */
  datatype Source = Initial | Reload

  /** One call of handleMessage: which message, and whether it had been queued. */
  datatype Handing = Handing(message: int, queued: bool)

  /**
   * Messages are numbered in order of arrival. `drains` are the loops of processQueuedMessages that are
   * suspended on a handler; `loading` and `reloads` are the WASM loads under way.
   */
  datatype Service = Service(
    ready: bool, received: nat, queue: seq<int>, handed: seq<Handing>,
    drains: seq<Source>, loading: bool, reloads: nat)

  datatype Event =
    | Receive
    | EnvChanged
    | Loaded
    | LoadFailed
    | Reloaded
    | ReloadFailed
    | StateLoadFailed
    | HandlerSettles(drain: int, works: bool)

  const STARTED := Service(false, 0, [], [], [], true, 0)

  function Hand(s: Service, message: int, queued: bool): Service { s.(handed := s.handed + [Handing(message, queued)]) }

  /** From the loop test to the next await, or to the end of the loop. */
  function Drain(s: Service, source: Source): Service {
    if s.queue == [] then s
    else Hand(s, s.queue[0], true).(queue := s.queue[1..], drains := s.drains + [source])
  }

  function WithoutDrain(s: Service, i: int): Service
    requires 0 <= i < |s.drains|
  {
    s.(drains := s.drains[..i] + s.drains[i + 1..])
  }

  function Next(s: Service, event: Event): Service {
    match event
    case Receive =>
      var arrived := s.(received := s.received + 1);
      if s.ready then Hand(arrived, s.received, false) else arrived.(queue := s.queue + [s.received])
    case EnvChanged => s.(ready := false, reloads := s.reloads + 1)
    case Loaded => if !s.loading then s else Drain(s.(ready := true, loading := false), Initial)
    case LoadFailed => s.(loading := false)
    case Reloaded => if s.reloads == 0 then s else Drain(s.(ready := true, reloads := s.reloads - 1), Reload)
    case ReloadFailed => if s.reloads == 0 then s else s.(ready := true, reloads := s.reloads - 1)
    case StateLoadFailed => if s.reloads == 0 then s else s.(reloads := s.reloads - 1)
    case HandlerSettles(i, works) =>
      if !(0 <= i < |s.drains|) then s
      else if works then Drain(WithoutDrain(s, i), s.drains[i])
      else if s.drains[i].Reload? then WithoutDrain(s, i).(ready := true)
      else WithoutDrain(s, i)
  }

  function RunFrom(s: Service, events: seq<Event>): Service {
    if events == [] then s else Next(RunFrom(s, events[..|events| - 1]), events[|events| - 1])
  }

  // ---- Conservation and order ----

  function Messages(handed: seq<Handing>): (r: seq<int>)
    ensures |r| == |handed| && forall i :: 0 <= i < |r| ==> r[i] == handed[i].message
  {
    seq(|handed|, i requires 0 <= i < |handed| => handed[i].message)
  }

  function UpTo(n: nat): seq<int> { seq(n, i => i) }

  /** Every message received has been handed over or is queued, once. */
  predicate Conserved(s: Service) { multiset(Messages(s.handed)) + multiset(s.queue) == multiset(UpTo(s.received)) }

  /** The messages handed over from the queue, in order. */
  function Left(handed: seq<Handing>): seq<int> {
    if handed == [] then []
    else
      var h := handed[|handed| - 1];
      Left(handed[..|handed| - 1]) + if h.queued then [h.message] else []
  }

  predicate Increasing(a: seq<int>) { forall i, j :: 0 <= i < j < |a| ==> a[i] < a[j] }

  /** What has left the queue and what is still in it are, one after the other, in arrival order. */
  predicate Ordered(s: Service) {
    && Increasing(Left(s.handed) + s.queue)
    && forall m :: m in Left(s.handed) + s.queue ==> m < s.received
  }

  lemma HandMessages(handed: seq<Handing>, h: Handing)
    ensures Messages(handed + [h]) == Messages(handed) + [h.message]
    ensures Left(handed + [h]) == Left(handed) + if h.queued then [h.message] else []
  {
    assert (handed + [h])[..|handed|] == handed;
  }

  lemma DrainKeeps(s: Service, source: Source)
    requires Conserved(s) && Ordered(s)
    ensures Conserved(Drain(s, source)) && Ordered(Drain(s, source))
  {
    hide Messages, Left, UpTo, Increasing;
    if s.queue != [] {
      HandMessages(s.handed, Handing(s.queue[0], true));
      assert s.queue == [s.queue[0]] + s.queue[1..];
      assert Left(s.handed) + [s.queue[0]] + s.queue[1..] == Left(s.handed) + s.queue;
    }
  }

  lemma ReceiveKeeps(s: Service)
    requires Conserved(s) && Ordered(s)
    ensures Conserved(Next(s, Receive)) && Ordered(Next(s, Receive))
  {
    hide Messages, Left, Increasing;
    HandMessages(s.handed, Handing(s.received, false));
    assert UpTo(s.received + 1) == UpTo(s.received) + [s.received];
    if s.ready {
      assert Left(s.handed) + [] == Left(s.handed);
    } else {
      assert Left(s.handed) + (s.queue + [s.received]) == (Left(s.handed) + s.queue) + [s.received];
      IncreasingSnoc(Left(s.handed) + s.queue, s.received);
    }
  }

  lemma IncreasingSnoc(a: seq<int>, x: int)
    requires Increasing(a) && forall m :: m in a ==> m < x
    ensures Increasing(a + [x])
  {
    forall i | 0 <= i < |a|
      ensures a[i] < x
    {
      assert a[i] in a;
    }
  }

  /** Steps that leave messages, queue and hand-overs alone. */
  lemma SameMessages(s: Service, v: Service)
    requires Conserved(s) && Ordered(s) && v.received == s.received && v.queue == s.queue && v.handed == s.handed
    ensures Conserved(v) && Ordered(v)
  {
  }

  lemma StepKeeps(s: Service, event: Event)
    requires Conserved(s) && Ordered(s)
    ensures Conserved(Next(s, event)) && Ordered(Next(s, event))
  {
    hide Drain, Conserved, Ordered, Hand;
    match event
    case Receive => ReceiveKeeps(s);
    case Loaded =>
      SameMessages(s, s.(ready := true, loading := false));
      DrainKeeps(s.(ready := true, loading := false), Initial);
    case Reloaded =>
      if s.reloads > 0 {
        SameMessages(s, s.(ready := true, reloads := s.reloads - 1));
        DrainKeeps(s.(ready := true, reloads := s.reloads - 1), Reload);
      }
    case HandlerSettles(i, works) =>
      if 0 <= i < |s.drains| {
        SameMessages(s, WithoutDrain(s, i));
        SameMessages(s, WithoutDrain(s, i).(ready := true));
        DrainKeeps(WithoutDrain(s, i), s.drains[i]);
      }
    case _ => SameMessages(s, Next(s, event));
  }

  lemma {:induction false} RunKeeps(events: seq<Event>)
    ensures Conserved(RunFrom(STARTED, events)) && Ordered(RunFrom(STARTED, events))
  {
    hide Conserved, Ordered, Next;
    if events == [] {
      assert Conserved(STARTED) && Ordered(STARTED) by { StartKeeps(); }
    } else {
      RunKeeps(events[..|events| - 1]);
      StepKeeps(RunFrom(STARTED, events[..|events| - 1]), events[|events| - 1]);
    }
  }

  lemma StartKeeps()
    ensures Conserved(STARTED) && Ordered(STARTED)
  {
  }

  /**
   * Over every interleaving of messages, readiness changes and concurrent drains: no message is lost or
   * handed over twice, and those that were queued are handed over in arrival order.
   */
  lemma NothingLostOrRepeated(events: seq<Event>, m: int)
    ensures var s := RunFrom(STARTED, events);
            && (m in Messages(s.handed) || m in s.queue <==> 0 <= m < s.received)
            && !(m in Messages(s.handed) && m in s.queue)
            && (forall i, j :: 0 <= i < j < |s.handed| ==> s.handed[i].message != s.handed[j].message)
            && (forall i, j :: 0 <= i < j < |s.handed| && s.handed[i].queued && s.handed[j].queued ==>
                  s.handed[i].message < s.handed[j].message)
  {
    hide RunFrom, Messages, Left, Increasing;
    RunKeeps(events);
    var s := RunFrom(STARTED, events);
    UpToOnce(s.received);
    Counted(s, m);
    forall i, j | 0 <= i < j < |s.handed|
      ensures s.handed[i].message != s.handed[j].message
    {
      var x := Messages(s.handed)[i];
      Counted(s, x);
      if x == Messages(s.handed)[j] {
        Twice(Messages(s.handed), i, j);
      }
    }
    IncreasingPrefix(Left(s.handed), s.queue);
    LeftInOrder(s.handed);
  }

  lemma Counted(s: Service, m: int)
    requires Conserved(s)
    ensures multiset(Messages(s.handed))[m] + multiset(s.queue)[m] == multiset(UpTo(s.received))[m]
  {
    hide Messages, UpTo;
  }

  lemma IncreasingPrefix(a: seq<int>, b: seq<int>)
    requires Increasing(a + b)
    ensures Increasing(a)
  {
    assert forall i :: 0 <= i < |a| ==> a[i] == (a + b)[i];
  }

  lemma {:induction false} LeftInOrder(handed: seq<Handing>)
    requires Increasing(Left(handed))
    ensures forall i, j :: 0 <= i < j < |handed| && handed[i].queued && handed[j].queued ==>
              handed[i].message < handed[j].message
    ensures forall i :: 0 <= i < |handed| && handed[i].queued ==> handed[i].message in Left(handed)
  {
    if handed == [] {
    } else {
      var n := |handed| - 1;
      var before, h := Left(handed[..n]), handed[n];
      IncreasingPrefix(before, if h.queued then [h.message] else []);
      LeftInOrder(handed[..n]);
      forall i | 0 <= i < n && handed[i].queued
        ensures handed[i].message in before
        ensures h.queued ==> handed[i].message < h.message
      {
        assert handed[..n][i] == handed[i];
        var k :| 0 <= k < |before| && before[k] == handed[i].message;
        assert h.queued ==> Left(handed)[k] < Left(handed)[|before|];
      }
      assert forall i :: 0 <= i < n ==> handed[..n][i] == handed[i];
    }
  }

  lemma {:induction false} UpToOnce(n: nat)
    ensures forall m :: multiset(UpTo(n))[m] == if 0 <= m < n then 1 else 0
  {
    if n == 0 {
    } else {
      UpToOnce(n - 1);
      assert UpTo(n) == UpTo(n - 1) + [n - 1];
    }
  }

  lemma Twice(s: seq<int>, i: int, j: int)
    requires 0 <= i < j < |s| && s[i] == s[j]
    ensures multiset(s)[s[i]] >= 2
  {
    assert s == s[..i] + [s[i]] + s[i + 1..j] + [s[j]] + s[j + 1..];
  }

  // ---- Overall arrival order ----

  /** What has been handed over and then what is queued. */
  function Line(s: Service): seq<int> { Messages(s.handed) + s.queue }

  /** Hand-overs so far, followed by the backlog, are in arrival order. */
  predicate InLine(s: Service) { Increasing(Line(s)) }

  /** A message arrives at a ready core with a backlog and is handed over before it. */
  predicate Overtakes(s: Service, event: Event) { event.Receive? && s.ready && s.queue != [] }

  lemma LineBelow(s: Service)
    requires Conserved(s)
    ensures forall m :: m in Line(s) ==> m < s.received
  {
    hide Messages;
    forall m | m in Line(s)
      ensures m < s.received
    {
      assert m in multiset(Messages(s.handed)) + multiset(s.queue);
      assert m in UpTo(s.received);
    }
  }

  lemma IncreasingSnocIff(a: seq<int>, x: int)
    requires forall m :: m in a ==> m < x
    ensures Increasing(a + [x]) <==> Increasing(a)
  {
    if Increasing(a) {
      IncreasingSnoc(a, x);
    } else {
      assert forall i :: 0 <= i < |a| ==> (a + [x])[i] == a[i];
    }
  }

  lemma DrainLine(s: Service, source: Source)
    ensures Line(Drain(s, source)) == Line(s)
  {
    hide Messages;
    if s.queue != [] {
      HandMessages(s.handed, Handing(s.queue[0], true));
      assert s.queue == [s.queue[0]] + s.queue[1..];
    }
  }

  lemma ReceiveLine(s: Service)
    ensures Overtakes(s, Receive) ==> Line(Next(s, Receive)) == Messages(s.handed) + [s.received] + s.queue
    ensures !Overtakes(s, Receive) ==> Line(Next(s, Receive)) == Line(s) + [s.received]
  {
    hide Messages;
    HandMessages(s.handed, Handing(s.received, false));
  }

  lemma OtherLine(s: Service, event: Event)
    requires !event.Receive?
    ensures Line(Next(s, event)) == Line(s)
  {
    hide Messages, Drain;
    match event
    case Loaded => DrainLine(s.(ready := true, loading := false), Initial);
    case Reloaded => if s.reloads > 0 { DrainLine(s.(ready := true, reloads := s.reloads - 1), Reload); }
    case HandlerSettles(i, works) => if 0 <= i < |s.drains| { DrainLine(WithoutDrain(s, i), s.drains[i]); }
    case _ =>
  }

  /** Arrival order is lost exactly when a message overtakes a backlog, and then for good. */
  lemma StepInLine(s: Service, event: Event)
    requires Conserved(s)
    ensures InLine(Next(s, event)) <==> InLine(s) && !Overtakes(s, event)
  {
    hide Messages, Increasing, Next, Line, Conserved;
    LineBelow(s);
    if event.Receive? {
      ReceiveLine(s);
      if Overtakes(s, event) {
        OutOfLine(s);
      } else {
        IncreasingSnocIff(Line(s), s.received);
      }
    } else {
      OtherLine(s, event);
    }
  }

  lemma OutOfLine(s: Service)
    requires s.queue != [] && forall m :: m in Line(s) ==> m < s.received
    ensures !Increasing(Messages(s.handed) + [s.received] + s.queue)
  {
    hide Messages;
    var before := Messages(s.handed);
    var all := before + [s.received] + s.queue;
    assert Line(s)[|before|] == s.queue[0] && s.queue[0] in Line(s);
    assert all[|before|] == s.received && all[|before| + 1] == s.queue[0];
  }

  lemma {:induction false} RunInLine(events: seq<Event>)
    ensures InLine(RunFrom(STARTED, events)) <==>
              !exists i :: 0 <= i < |events| && Overtakes(RunFrom(STARTED, events[..i]), events[i])
  {
    hide InLine, Overtakes, Next, RunFrom;
    if events == [] {
      StartInLine(events);
    } else {
      var n := |events| - 1;
      RunInLine(events[..n]);
      RunKeeps(events[..n]);
      LastStep(events);
      StepInLine(RunFrom(STARTED, events[..n]), events[n]);
      assert forall i :: 0 <= i < n ==> events[..n][..i] == events[..i] && events[..n][i] == events[i];
      if Overtakes(RunFrom(STARTED, events[..n]), events[n]) {
        assert n < |events|;
      }
    }
  }

  lemma StartInLine(events: seq<Event>)
    requires events == []
    ensures InLine(RunFrom(STARTED, events))
  {
  }

  /**
   * Over every run that has worked off its backlog, messages were handed over in arrival order exactly if none
   * overtook another.
   */
  lemma HandedInArrivalOrder(events: seq<Event>)
    requires RunFrom(STARTED, events).queue == []
    ensures Increasing(Messages(RunFrom(STARTED, events).handed)) <==>
              !exists i :: 0 <= i < |events| && Overtakes(RunFrom(STARTED, events[..i]), events[i])
  {
    hide RunFrom, Overtakes, Increasing, Messages;
    RunInLine(events);
    var s := RunFrom(STARTED, events);
    assert Line(s) == Messages(s.handed);
  }

  /** Which happens while the first drain waits for its first handler. */
  lemma NewcomerOvertakes(s: Service)
    requires s.loading && |s.queue| >= 2
    ensures var v := Next(Next(s, Loaded), Receive);
            && v.handed == s.handed + [Handing(s.queue[0], true), Handing(s.received, false)]
            && v.queue == s.queue[1..] != []
  {
  }

  // ---- Readiness and drains ----

  /** A handler failing inside a drain, or a WASM reload that fails. */
  predicate Fault(event: Event) { event.ReloadFailed? || (event.HandlerSettles? && !event.works) }

  /** Every backlog of a ready service has a drain at work. */
  predicate Attended(s: Service) { s.ready && s.queue != [] ==> s.drains != [] }

  lemma StepAttends(s: Service, event: Event)
    requires Attended(s) && !Fault(event)
    ensures Attended(Next(s, event))
  {
  }

  /** Without faults a ready service with a backlog always has a drain at work. */
  lemma {:induction false} BacklogIsDrained(events: seq<Event>)
    requires forall i :: 0 <= i < |events| ==> !Fault(events[i])
    ensures Attended(RunFrom(STARTED, events))
  {
    hide Next, Fault;
    if events == [] {
      assert STARTED.queue == [];
    } else {
      var n := |events| - 1;
      BacklogIsDrained(events[..n]);
      StepAttends(RunFrom(STARTED, events[..n]), events[n]);
    }
  }

  /** A failing handler that was the last drain's, or a failed reload with no drain left, while there is a backlog. */
  predicate Strands(s: Service, event: Event) {
    && s.queue != []
    && match event
       case ReloadFailed => s.reloads > 0 && s.drains == []
       case HandlerSettles(i, false) => i == 0 && |s.drains| == 1 && (s.ready || s.drains[0].Reload?)
       case _ => false
  }

  /**
   * Exactly when a step leaves a backlog of a ready service with nobody working on it, and exactly when
   * one that had nobody is taken up again, or the service stops being ready.
   */
  lemma BacklogStranded(s: Service, event: Event)
    ensures Attended(s) ==> (!Attended(Next(s, event)) <==> Strands(s, event))
    ensures !Attended(s) ==>
              (Attended(Next(s, event)) <==>
                 || event.EnvChanged? || (event.Loaded? && s.loading) || (event.Reloaded? && s.reloads > 0))
  {
  }

  /** Over every run: a backlog is at some point left alone exactly when there was a stranding step. */
  lemma {:induction false} StrandedExactly(events: seq<Event>)
    ensures (exists i :: 0 <= i <= |events| && !Attended(RunFrom(STARTED, events[..i]))) <==>
              exists i :: 0 <= i < |events| && Strands(RunFrom(STARTED, events[..i]), events[i])
  {
    hide Attended, Strands, Next, RunFrom;
    if events == [] {
      StartedFresh();
    } else {
      var n := |events| - 1;
      var before := RunFrom(STARTED, events[..n]);
      StrandedExactly(events[..n]);
      assert forall i :: 0 <= i <= n ==> events[..n][..i] == events[..i];
      assert forall i :: 0 <= i < n ==> events[..n][i] == events[i];
      assert events[..n + 1] == events;
      LastStep(events);
      BacklogStranded(before, events[n]);
      if Strands(before, events[n]) && Attended(before) {
        assert !Attended(RunFrom(STARTED, events[..n + 1]));
      }
      if exists i :: 0 <= i <= |events| && !Attended(RunFrom(STARTED, events[..i])) {
        var i :| 0 <= i <= |events| && !Attended(RunFrom(STARTED, events[..i]));
        if i <= n {
          assert !Attended(RunFrom(STARTED, events[..n][..i]));
        } else if !Attended(before) {
          assert !Attended(RunFrom(STARTED, events[..n][..n]));
        }
      }
      if exists i :: 0 <= i < n && Strands(RunFrom(STARTED, events[..n][..i]), events[..n][i]) {
        var i :| 0 <= i <= n && !Attended(RunFrom(STARTED, events[..n][..i]));
        assert !Attended(RunFrom(STARTED, events[..i]));
      }
    }
  }

  /** When a step calls handleMessage: on a message that arrives while ready, or from a drain with a backlog. */
  lemma HandsExactly(s: Service, event: Event)
    ensures |Next(s, event).handed| <= |s.handed| + 1 && s.handed <= Next(s, event).handed
    ensures Next(s, event).handed != s.handed <==>
              match event
              case Receive => s.ready
              case Loaded => s.loading && s.queue != []
              case Reloaded => s.reloads > 0 && s.queue != []
              case HandlerSettles(i, works) => works && 0 <= i < |s.drains| && s.queue != []
              case _ => false
  {
  }

  /** A message is handed to a core that is not ready exactly by a drain that goes on with a backlog. */
  lemma HandedWhileNotReady(s: Service, event: Event)
    ensures Next(s, event).handed != s.handed && !Next(s, event).ready <==>
              && event.HandlerSettles? && event.works && 0 <= event.drain < |s.drains|
              && s.queue != [] && !s.ready
  {
  }

  /** Which happens: an environment change does not stop a drain. */
  lemma DrainOutlivesChange(s: Service)
    requires s.loading && |s.queue| >= 2 && s.drains == []
    ensures var off := Next(Next(s, Loaded), EnvChanged);
            && !off.ready && off.drains == [Initial]
            && Next(off, HandlerSettles(0, true)).handed == off.handed + [Handing(s.queue[1], true)]
            && !Next(off, HandlerSettles(0, true)).ready
  {
  }

  /** The core is declared ready while a reload is still under way. */
  predicate Premature(s: Service) { s.ready && s.reloads > 0 }

  /** A step that declares the core ready with a reload still to come. */
  predicate DeclaresEarly(s: Service, event: Event) {
    match event
    case Loaded => s.loading && s.reloads > 0
    case Reloaded => s.reloads > 1
    case ReloadFailed => s.reloads > 1
    case HandlerSettles(i, works) => !works && 0 <= i < |s.drains| && s.drains[i].Reload? && s.reloads > 0
    case _ => false
  }

  /**
   * Exactly when the core is declared ready too soon: the first load ends during a reload, one of several
   * reloads ends, well or badly, or a handler fails in a reload's drain during the next reload.
   */
  lemma ReadyTooSoon(s: Service, event: Event)
    ensures !Premature(s) ==> (Premature(Next(s, event)) <==> DeclaresEarly(s, event))
    ensures Premature(s) ==>
              (!Premature(Next(s, event)) <==>
                 || event.EnvChanged?
                 || (s.reloads == 1 && (event.Reloaded? || event.ReloadFailed? || event.StateLoadFailed?)))
  {
  }

  /** Over every run: the core is at some point ready during a reload exactly when there was such a step. */
  lemma {:induction false} PrematureExactly(events: seq<Event>)
    ensures (exists i :: 0 <= i <= |events| && Premature(RunFrom(STARTED, events[..i]))) <==>
              exists i :: 0 <= i < |events| && DeclaresEarly(RunFrom(STARTED, events[..i]), events[i])
  {
    hide Premature, DeclaresEarly, Next, RunFrom;
    if events == [] {
      StartedFresh();
    } else {
      var n := |events| - 1;
      var before := RunFrom(STARTED, events[..n]);
      PrematureExactly(events[..n]);
      assert forall i :: 0 <= i <= n ==> events[..n][..i] == events[..i];
      assert forall i :: 0 <= i < n ==> events[..n][i] == events[i];
      assert events[..n + 1] == events;
      LastStep(events);
      ReadyTooSoon(before, events[n]);
      if DeclaresEarly(before, events[n]) && !Premature(before) {
        assert Premature(RunFrom(STARTED, events[..n + 1]));
      }
      if exists i :: 0 <= i <= |events| && Premature(RunFrom(STARTED, events[..i])) {
        var i :| 0 <= i <= |events| && Premature(RunFrom(STARTED, events[..i]));
        if i <= n {
          assert Premature(RunFrom(STARTED, events[..n][..i]));
        } else if Premature(before) {
          assert Premature(RunFrom(STARTED, events[..n][..n]));
        }
      }
      if exists i :: 0 <= i < n && DeclaresEarly(RunFrom(STARTED, events[..n][..i]), events[..n][i]) {
        var i :| 0 <= i <= n && Premature(RunFrom(STARTED, events[..n][..i]));
        assert Premature(RunFrom(STARTED, events[..i]));
      }
    }
  }

  /** A step that raises the flag: a load ends well, a reload ends or fails, or a reload's drain fails. */
  predicate Raises(s: Service, event: Event) {
    match event
    case Loaded => s.loading
    case Reloaded => s.reloads > 0
    case ReloadFailed => s.reloads > 0
    case HandlerSettles(i, works) => !works && 0 <= i < |s.drains| && s.drains[i].Reload?
    case _ => false
  }

  lemma StepReady(s: Service, event: Event)
    ensures Next(s, event).ready <==> Raises(s, event) || (s.ready && !event.EnvChanged?)
  {
  }

  /** Some step raised the flag, and the environment has not changed since. */
  predicate RaisedSince(events: seq<Event>) {
    exists i :: && 0 <= i < |events| && Raises(RunFrom(STARTED, events[..i]), events[i])
                && forall j :: i < j < |events| ==> !events[j].EnvChanged?
  }

  /** Over every run the core counts as ready exactly when that is so. */
  lemma {:induction false} ReadyExactly(events: seq<Event>)
    ensures RunFrom(STARTED, events).ready <==> RaisedSince(events)
  {
    hide Raises, Next, RunFrom;
    if events == [] {
      NotYetReady();
    } else {
      var n := |events| - 1;
      var before := events[..n];
      ReadyExactly(before);
      LastStep(events);
      StepReady(RunFrom(STARTED, before), events[n]);
      if RaisedSince(before) && !events[n].EnvChanged? {
        var i :| && 0 <= i < n && Raises(RunFrom(STARTED, before[..i]), before[i])
                 && forall j :: i < j < n ==> !before[j].EnvChanged?;
        assert events[..i] == before[..i];
        assert RaisedSince(events);
      }
      if RaisedSince(events) {
        var i :| && 0 <= i < |events| && Raises(RunFrom(STARTED, events[..i]), events[i])
                 && forall j :: i < j < |events| ==> !events[j].EnvChanged?;
        if i < n {
          assert before[..i] == events[..i] && before[i] == events[i];
          assert forall j :: i < j < n ==> before[j] == events[j];
          assert RaisedSince(before);
        }
      }
    }
  }

  lemma NotYetReady()
    ensures !RunFrom(STARTED, []).ready
  {
  }

  lemma StartedFresh()
    ensures forall events: seq<Event> :: |events| == 0 ==>
              !Premature(RunFrom(STARTED, events[..0])) && Attended(RunFrom(STARTED, events[..0]))
  {
  }

  lemma LastStep(events: seq<Event>)
    requires events != []
    ensures RunFrom(STARTED, events) == Next(RunFrom(STARTED, events[..|events| - 1]), events[|events| - 1])
  {
  }

  /** Two runs that end ready with a reload to come, no handler having failed. */
  lemma PrematureRuns()
    ensures Premature(Next(Next(STARTED, EnvChanged), Loaded))
    ensures Premature(Next(Next(Next(STARTED, EnvChanged), EnvChanged), Reloaded))
  {
  }

  // ---- The service itself ----

  function Queued(messages: seq<int>): (r: seq<Handing>)
    ensures |r| == |messages|
  {
    seq(|messages|, i requires 0 <= i < |messages| => Handing(messages[i], true))
  }

  /** What happens while one handler of a drain runs: messages that arrive, and how the handler ends. */
  datatype Wait = Wait(arrivals: nat, works: bool)

  /** A drain, the last of the suspended ones, resumed after each of the waits, until it ends. */
  function Resumed(s: Service, waits: seq<Wait>): Service
    decreases |waits|
  {
    if waits == [] || s.drains == [] then s
    else
      var i := |s.drains| - 1;
      var next := Next(Arrived(s, waits[0].arrivals), HandlerSettles(i, waits[0].works));
      if |next.drains| == |s.drains| then Resumed(next, waits[1..]) else next
  }

  /** Arrivals leave the drains alone. */
  function Arrived(s: Service, n: nat): (r: Service)
    ensures r.drains == s.drains && r.ready == s.ready
  {
    if n == 0 then s else Next(Arrived(s, n - 1), Receive)
  }

  class BackgroundService {
    var isWasmReady: bool
    var messageQueue: seq<int>
    var received: nat
    var handed: seq<Handing>
    /** The suspended drains and the loads under way, which the runtime keeps. */
    var drains: seq<Source>
    var loading: bool
    var reloads: nat

    constructor ()
      ensures View() == STARTED
    {
      isWasmReady, messageQueue, received, handed, drains, loading, reloads := false, [], 0, [], [], true, 0;
    }

    function View(): Service
      reads this
    {
      Service(isWasmReady, received, messageQueue, handed, drains, loading, reloads)
    }

    method OnContentMessage()
      modifies this`received, this`messageQueue, this`handed
      ensures View() == Next(old(View()), Receive)
    {
      var message := received;
      received := received + 1;
      if !isWasmReady {
        messageQueue := messageQueue + [message];
        return;
      }
      handed := handed + [Handing(message, false)];
    }

    method OnEnvChanged()
      modifies this`isWasmReady, this`reloads
      ensures View() == Next(old(View()), EnvChanged)
    {
      isWasmReady := false;
      reloads := reloads + 1;
    }

    /** initializeWasm has settled: a drain starts and runs to its first await. */
    method OnLoaded(works: bool)
      requires loading
      modifies this
      ensures View() == Next(old(View()), if works then Loaded else LoadFailed)
    {
      loading := false;
      if works {
        isWasmReady := true;
        var _ := TakeNext(Initial);
      }
    }

    /** reInitializeWasm has settled; the catch block sets the flag too, without a drain. */
    method OnReloaded(works: bool)
      requires reloads > 0
      modifies this
      ensures View() == Next(old(View()), if works then Reloaded else ReloadFailed)
    {
      reloads := reloads - 1;
      isWasmReady := true;
      if works {
        var _ := TakeNext(Reload);
      }
    }

    /** walletStorage.initializeState has rejected: nothing sets the flag again. */
    method OnStateLoadFailed()
      requires reloads > 0
      modifies this`reloads
      ensures View() == Next(old(View()), StateLoadFailed)
    {
      reloads := reloads - 1;
    }

    /** From the loop test to the next await: false when the loop ends. */
    method TakeNext(source: Source) returns (suspended: bool)
      modifies this`messageQueue, this`handed, this`drains
      ensures View() == Drain(old(View()), source)
      ensures suspended <==> old(messageQueue) != []
    {
      if messageQueue == [] {
        return false;
      }
      var message := messageQueue[0];
      messageQueue := messageQueue[1..];
      handed := handed + [Handing(message, true)];
      drains := drains + [source];
      return true;
    }

    /** A drain's handler has settled; a failure leaves the loop, and a reload's catch block sets the flag. */
    method OnHandlerSettled(i: nat, works: bool) returns (suspended: bool)
      requires i < |drains|
      modifies this
      ensures View() == Next(old(View()), HandlerSettles(i, works))
      ensures suspended <==> |drains| == |old(drains)|
    {
      var source := drains[i];
      drains := drains[..i] + drains[i + 1..];
      if works {
        suspended := TakeNext(source);
      } else {
        suspended := false;
        if source == Reload {
          isWasmReady := true;
        }
      }
    }

    /**
     * A drain followed through any number of waits, messages arriving meanwhile; it stays suspended when they
     * run out.
     */
    method ProcessQueuedMessages(source: Source, waits: seq<Wait>)
      modifies this
      ensures View() == var s := Drain(old(View()), source);
                        if old(messageQueue) == [] then s else Resumed(s, waits)
    {
      hide Next, Drain;
      assert |Drain(View(), source).drains| == |drains| + if messageQueue == [] then 0 else 1 by {
        DrainAdds(View(), source);
      }
      var suspended := TakeNext(source);
      ghost var start := View();
      var k := 0;
      while suspended && k < |waits|
        invariant k <= |waits|
        invariant suspended ==> drains != []
        invariant suspended ==> |drains| == |start.drains| && Resumed(start, waits) == Resumed(View(), waits[k..])
        invariant !suspended && old(messageQueue) != [] ==> View() == Resumed(start, waits)
        invariant old(messageQueue) == [] ==> !suspended && View() == start
      {
        ghost var before := View();
        for j := 0 to waits[k].arrivals
          invariant View() == Arrived(before, j)
        {
          OnContentMessage();
        }
        suspended := OnHandlerSettled(|drains| - 1, waits[k].works);
        assert waits[k..][0] == waits[k] && waits[k..][1..] == waits[k + 1..];
        k := k + 1;
      }
    }
  }

  lemma DrainAdds(s: Service, source: Source)
    ensures |Drain(s, source).drains| == |s.drains| + if s.queue == [] then 0 else 1
  {
  }

  function Resumes(n: nat): seq<Event> { seq(n, _ => HandlerSettles(0, true)) }

  /** A single drain whose handlers all succeed hands over the whole backlog, in order, and ends. */
  lemma {:induction false} DrainEmptiesQueue(s: Service, source: Source)
    requires s.drains == [source]
    ensures var v := RunFrom(s, Resumes(|s.queue| + 1));
            && v.queue == [] && v.drains == [] && v.ready == s.ready
            && v.handed == s.handed + Queued(s.queue)
    decreases |s.queue|
  {
    hide Next;
    var n := |s.queue|;
    var e := HandlerSettles(0, true);
    RunCons(s, e, Resumes(n));
    assert [e] + Resumes(n) == Resumes(n + 1);
    OneResume(s, source);
    if n == 0 {
    } else {
      DrainEmptiesQueue(Next(s, e), source);
      assert Queued(s.queue) == [Handing(s.queue[0], true)] + Queued(s.queue[1..]);
    }
  }

  lemma OneResume(s: Service, source: Source)
    requires s.drains == [source]
    ensures var v := Next(s, HandlerSettles(0, true));
            if s.queue == [] then v == s.(drains := [])
            else v == s.(queue := s.queue[1..], handed := s.handed + [Handing(s.queue[0], true)])
  {
  }

  lemma {:induction false} RunCons(s: Service, e: Event, rest: seq<Event>)
    ensures RunFrom(s, [e] + rest) == RunFrom(Next(s, e), rest)
    decreases |rest|
  {
    hide Next;
    if rest == [] {
      assert [e] + rest == [e] && [e][..0] == [];
    } else {
      var n := |rest| - 1;
      assert ([e] + rest)[..n + 1] == [e] + rest[..n];
      RunCons(s, e, rest[..n]);
    }
  }
}
