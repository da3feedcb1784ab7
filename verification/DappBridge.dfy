// The PWA's DApp bridge, pwa/composables/usePwaDappBridge.ts: request validation, execution and
// response, one step per synchronous stretch, any number of handlers interleaved.

module DappBridge {
  import opened Basics

  /** A well-formed envelope as posted, and what the window says about the message that carried it. */
  datatype Request = Request(requestId: string, origin: string, action: string, nonce: string, expiresAt: int)
  datatype Message = Message(request: Request, eventOrigin: string, fromFrame: bool)

  datatype Failure =
    | OriginNotAllowed | WrongSource | InvalidEnvelope | Expired | Duplicate | OriginMismatch
    | NotConnected | ActionFailed | PostFailed

  /** Where a handler is suspended. */
  datatype Phase = Authorizing | Admitted | Refused(failure: Failure) | Executing | Finished

  /** `checkedAt` and `admittedAt` are the steps of the duplicate test and of the insertion. */
  datatype Handler = Handler(message: Message, phase: Phase, checkedAt: nat, admittedAt: Option<nat>)

  datatype Response = Response(handler: int, requestId: string, origin: string, success: bool)

  datatype Bridge = Bridge(
    clock: nat, handlers: seq<Handler>, pending: int, handled: set<string>,
    executed: seq<int>, responses: seq<Response>, lastError: Option<Failure>)

  /** `frame`: the DApp window exists; `posts` and `failurePosts`: postMessage accepts the message. */
  datatype Event =
    | Arrives(message: Message, now: int)
    | Authorized(handler: int, answer: Option<bool>)
    | Continues(handler: int, frame: bool, failurePosts: bool)
    | Settles(handler: int, works: bool, frame: bool, posts: bool, failurePosts: bool)

  const EMPTY := Bridge(0, [], 0, {}, [], [], None)

  function Key(origin: string, requestId: string, nonce: string): string { origin + ":" + requestId + ":" + nonce }

  function KeyOf(m: Message): string { Key(m.eventOrigin, m.request.requestId, m.request.nonce) }

  /** The spellings normaliseAction turns into REQUEST_ACCOUNTS. */
  predicate RequestsAccounts(action: string) { action == "requestAccounts" || action == "REQUEST_ACCOUNTS" }

  /** The checks before the first await of validateRequest, in order. */
  function Check(m: Message, allowed: set<string>, now: int, handled: set<string>): Option<Failure> {
    if m.eventOrigin !in allowed then Some(OriginNotAllowed)
    else if !m.fromFrame then Some(WrongSource)
    else if m.request.requestId == "" || m.request.action == "" || m.request.nonce == "" || m.request.expiresAt == 0
    then Some(InvalidEnvelope)
    else if m.request.expiresAt < now then Some(Expired)
    else if KeyOf(m) in handled then Some(Duplicate)
    else if m.request.origin != "" && m.request.origin != m.eventOrigin then Some(OriginMismatch)
    else None
  }

  function Arrive(b: Bridge, allowed: set<string>, m: Message, now: int): Bridge {
    var started := b.(clock := b.clock + 1, pending := b.pending + 1, lastError := None);
    match Check(m, allowed, now, b.handled)
    case Some(failure) => started.(handlers := b.handlers + [Handler(m, Refused(failure), b.clock, None)])
    case None =>
      if RequestsAccounts(m.request.action) then
        started.(handlers := b.handlers + [Handler(m, Admitted, b.clock, Some(b.clock))],
                 handled := b.handled + {KeyOf(m)})
      else started.(handlers := b.handlers + [Handler(m, Authorizing, b.clock, None)])
  }

  function Enter(b: Bridge, h: int, phase: Phase): Bridge
    requires 0 <= h < |b.handlers|
  {
    b.(clock := b.clock + 1, handlers := b.handlers[h := b.handlers[h].(phase := phase)])
  }

  function Post(b: Bridge, h: int, success: bool): Bridge
    requires 0 <= h < |b.handlers|
  {
    var m := b.handlers[h].message;
    b.(responses := b.responses + [Response(h, m.request.requestId, m.eventOrigin, success)])
  }

  /** The catch block and the finally block. */
  function Fail(b: Bridge, h: int, failure: Failure, frame: bool, failurePosts: bool): Bridge
    requires 0 <= h < |b.handlers|
  {
    var done := Conclude(b, h).(lastError := Some(failure));
    if frame && failurePosts then Post(done, h, false) else done
  }

  /** Math.max(0, pending - 1). */
  function Conclude(b: Bridge, h: int): Bridge
    requires 0 <= h < |b.handlers|
  {
    Enter(b, h, Finished).(pending := if b.pending - 1 < 0 then 0 else b.pending - 1)
  }

  function Next(b: Bridge, allowed: set<string>, event: Event): Bridge {
    match event
    case Arrives(m, now) => Arrive(b, allowed, m, now)
    case Authorized(h, answer) =>
      if !(0 <= h < |b.handlers|) || b.handlers[h].phase != Authorizing then b
      else if answer == Some(true) then
        var admitted := b.handlers[h].(phase := Admitted, admittedAt := Some(b.clock));
        b.(clock := b.clock + 1, handlers := b.handlers[h := admitted],
           handled := b.handled + {KeyOf(b.handlers[h].message)})
      else Enter(b, h, Refused(NotConnected))
    case Continues(h, frame, failurePosts) =>
      if !(0 <= h < |b.handlers|) then b
      else if b.handlers[h].phase == Admitted then Enter(b, h, Executing).(executed := b.executed + [h])
      else if b.handlers[h].phase.Refused? then Fail(b, h, b.handlers[h].phase.failure, frame, failurePosts)
      else b
    case Settles(h, works, frame, posts, failurePosts) =>
      if !(0 <= h < |b.handlers|) || b.handlers[h].phase != Executing then b
      else if !works then Fail(b, h, ActionFailed, frame, failurePosts)
      else if frame && !posts then Fail(b, h, PostFailed, frame, failurePosts)
      else if frame then Post(Conclude(b, h), h, true)
      else Conclude(b, h)
  }

  function Run(allowed: set<string>, events: seq<Event>): Bridge {
    if events == [] then EMPTY else Next(Run(allowed, events[..|events| - 1]), allowed, events[|events| - 1])
  }

  // ---- Pending counter and responses ----

  function Unfinished(handlers: seq<Handler>): nat {
    if handlers == [] then 0
    else Unfinished(handlers[..|handlers| - 1]) + if handlers[|handlers| - 1].phase == Finished then 0 else 1
  }

  lemma {:induction false} UnfinishedUpdate(handlers: seq<Handler>, h: int, changed: Handler)
    requires 0 <= h < |handlers|
    ensures Unfinished(handlers[h := changed]) ==
            Unfinished(handlers)
            - (if handlers[h].phase == Finished then 0 else 1)
            + (if changed.phase == Finished then 0 else 1)
    ensures handlers[h].phase != Finished ==> Unfinished(handlers) >= 1
  {
    var n := |handlers| - 1;
    if h == n {
      assert handlers[h := changed][..n] == handlers[..n];
    } else {
      assert handlers[h := changed][..n] == handlers[..n][h := changed];
      UnfinishedUpdate(handlers[..n], h, changed);
    }
  }

  lemma UnfinishedSnoc(handlers: seq<Handler>, h: Handler)
    ensures Unfinished(handlers + [h]) == Unfinished(handlers) + if h.phase == Finished then 0 else 1
  {
    assert (handlers + [h])[..|handlers|] == handlers;
  }

  predicate Counted(b: Bridge) { b.pending == Unfinished(b.handlers) }

  /** A step that finishes handler h, and no other change of phase matters to the counter. */
  predicate Finishes(b: Bridge, event: Event, h: int) {
    && 0 <= h < |b.handlers|
    && match event
       case Continues(i, _, _) => i == h && b.handlers[h].phase.Refused?
       case Settles(i, _, _, _, _) => i == h && b.handlers[h].phase == Executing
       case _ => false
  }

  /** The window exists and a post gets through: the failure's, or the result's, or the failure's after it. */
  predicate Answers(b: Bridge, event: Event, h: int)
    requires Finishes(b, event, h)
  {
    match event
    case Continues(_, frame, failurePosts) => frame && failurePosts
    case Settles(_, works, frame, posts, failurePosts) => frame && ((works && posts) || failurePosts)
  }

  lemma ArriveCounted(b: Bridge, allowed: set<string>, m: Message, now: int)
    requires Counted(b)
    ensures Counted(Arrive(b, allowed, m, now))
  {
    hide Check, KeyOf, RequestsAccounts, Unfinished;
    var v := Arrive(b, allowed, m, now);
    assert v.handlers == b.handlers + [v.handlers[|b.handlers|]];
    UnfinishedSnoc(b.handlers, v.handlers[|b.handlers|]);
  }

  /** How the counter moves: down by one, unclamped, in a finishing step, and not at all otherwise. */
  lemma PendingMoves(b: Bridge, allowed: set<string>, event: Event)
    requires !event.Arrives? && b.pending >= Unfinished(b.handlers)
    ensures var h := event.handler; var v := Next(b, allowed, event);
            v.pending == if Finishes(b, event, h) then b.pending - 1 else b.pending
  {
    hide KeyOf, Unfinished;
    if Finishes(b, event, event.handler) {
      UnfinishedUpdate(b.handlers, event.handler, b.handlers[event.handler]);
    }
  }

  /** The counter counts the unfinished handlers, and the clamp at zero never acts. */
  lemma StepCounted(b: Bridge, allowed: set<string>, event: Event)
    requires Counted(b)
    ensures Counted(Next(b, allowed, event))
    ensures forall h :: Finishes(b, event, h) ==> b.pending >= 1 && Next(b, allowed, event).pending == b.pending - 1
  {
    hide Arrive, Next, Unfinished;
    if event.Arrives? {
      ArriveCounted(b, allowed, event.message, event.now);
      ArriveNext(b, allowed, event);
    } else {
      UpdatesOne(b, allowed, event, event.handler);
      PendingMoves(b, allowed, event);
      Posted(b, allowed, event);
    }
  }

  lemma ArriveNext(b: Bridge, allowed: set<string>, event: Event)
    requires event.Arrives?
    ensures Next(b, allowed, event) == Arrive(b, allowed, event.message, event.now)
  {
    hide Arrive;
  }

  lemma UpdatesOne(b: Bridge, allowed: set<string>, event: Event, h: int)
    requires !event.Arrives? && event.handler == h
    ensures 0 <= h < |b.handlers| ==>
              var v := Next(b, allowed, event);
              && |v.handlers| == |b.handlers|
              && v.handlers == b.handlers[h := v.handlers[h]]
              && Unfinished(v.handlers) == Unfinished(b.handlers)
                                           - (if b.handlers[h].phase == Finished then 0 else 1)
                                           + (if v.handlers[h].phase == Finished then 0 else 1)
              && (b.handlers[h].phase != Finished ==> Unfinished(b.handlers) >= 1)
              && v.handlers[h].message == b.handlers[h].message && v.handlers[h].checkedAt == b.handlers[h].checkedAt
    ensures !(0 <= h < |b.handlers|) ==> Next(b, allowed, event) == b
  {
    hide KeyOf;
    if 0 <= h < |b.handlers| {
      var v := Next(b, allowed, event);
      assert v.handlers == b.handlers[h := v.handlers[h]];
      UnfinishedUpdate(b.handlers, h, v.handlers[h]);
    }
  }

  /** The responses to one handler. */
  function Of(responses: seq<Response>, h: int): seq<Response> {
    if responses == [] then []
    else
      var last := responses[|responses| - 1];
      Of(responses[..|responses| - 1], h) + if last.handler == h then [last] else []
  }

  lemma OfSnoc(responses: seq<Response>, r: Response, h: int)
    ensures Of(responses + [r], h) == Of(responses, h) + if r.handler == h then [r] else []
  {
    assert (responses + [r])[..|responses|] == responses;
  }

  /** Unfinished handlers have not been answered; finished ones at most once, under their own id and origin. */
  predicate Answered(b: Bridge, h: int)
    requires 0 <= h < |b.handlers|
  {
    var r, m := Of(b.responses, h), b.handlers[h].message;
    && (b.handlers[h].phase != Finished ==> r == [])
    && |r| <= 1
    && (r != [] ==> r[0].requestId == m.request.requestId && r[0].origin == m.eventOrigin)
  }

  /** No response names a handler that does not exist. */
  predicate Responded(b: Bridge) {
    && (forall h :: 0 <= h < |b.handlers| ==> Answered(b, h))
    && (forall i :: 0 <= i < |b.responses| ==> 0 <= b.responses[i].handler < |b.handlers|)
  }

  lemma {:induction false} OfNone(responses: seq<Response>, n: int)
    requires forall i :: 0 <= i < |responses| ==> responses[i].handler < n
    ensures Of(responses, n) == []
  {
    if responses == [] {
    } else {
      OfNone(responses[..|responses| - 1], n);
    }
  }

  lemma ArriveResponds(b: Bridge, allowed: set<string>, event: Event)
    requires Responded(b) && event.Arrives?
    ensures Responded(Next(b, allowed, event)) && Next(b, allowed, event).responses == b.responses
    ensures b.handlers <= Next(b, allowed, event).handlers
  {
    hide Check, KeyOf, RequestsAccounts, Of;
    OfNone(b.responses, |b.handlers|);
    var v := Next(b, allowed, event);
    forall h | 0 <= h < |b.handlers|
      ensures Answered(v, h)
    {
      assert Answered(b, h);
    }
  }

  function ResponseTo(b: Bridge, event: Event, h: int): Response
    requires Finishes(b, event, h)
  {
    var m := b.handlers[h].message;
    Response(h, m.request.requestId, m.eventOrigin, event.Settles? && event.works && event.posts)
  }

  lemma Posted(b: Bridge, allowed: set<string>, event: Event)
    requires !event.Arrives?
    ensures var h := event.handler; var v := Next(b, allowed, event);
            && v.responses ==
                 b.responses
                 + (if Finishes(b, event, h) && Answers(b, event, h) then [ResponseTo(b, event, h)] else [])
            && (0 <= h < |b.handlers| ==>
                  (v.handlers[h].phase == Finished <==> b.handlers[h].phase == Finished || Finishes(b, event, h)))
  {
    hide KeyOf;
  }

  /** The step that finishes a handler answers it, exactly when a post gets through; no other step answers. */
  lemma StepResponds(b: Bridge, allowed: set<string>, event: Event)
    requires Responded(b)
    ensures Responded(Next(b, allowed, event))
    ensures forall h :: 0 <= h < |b.handlers| ==>
              Of(Next(b, allowed, event).responses, h) ==
                if Finishes(b, event, h) && Answers(b, event, h) then [ResponseTo(b, event, h)]
                else Of(b.responses, h)
    ensures forall h :: 0 <= h < |b.handlers| ==>
              (Next(b, allowed, event).handlers[h].phase == Finished <==>
                 b.handlers[h].phase == Finished || Finishes(b, event, h))
  {
    hide Check, KeyOf, RequestsAccounts, Of, Next;
    var v := Next(b, allowed, event);
    if event.Arrives? {
      ArriveResponds(b, allowed, event);
    } else {
      var k := event.handler;
      UpdatesOne(b, allowed, event, k);
      Posted(b, allowed, event);
      if Finishes(b, event, k) && Answers(b, event, k) {
        forall h | 0 <= h < |b.handlers|
          ensures Of(v.responses, h) == Of(b.responses, h) + if h == k then [ResponseTo(b, event, k)] else []
        {
          OfSnoc(b.responses, ResponseTo(b, event, k), h);
        }
        assert Answered(b, k);
      } else {
        assert v.responses == b.responses;
      }
      forall h | 0 <= h < |b.handlers|
        ensures Answered(v, h)
      {
        assert Answered(b, h);
      }
    }
  }

  lemma {:induction false} RunKeeps(allowed: set<string>, events: seq<Event>)
    ensures Counted(Run(allowed, events)) && Responded(Run(allowed, events))
  {
    hide Counted, Responded, Next;
    if events == [] {
      assert Counted(EMPTY) && Responded(EMPTY) by { EmptyKeeps(); }
    } else {
      RunKeeps(allowed, events[..|events| - 1]);
      StepCounted(Run(allowed, events[..|events| - 1]), allowed, events[|events| - 1]);
      StepResponds(Run(allowed, events[..|events| - 1]), allowed, events[|events| - 1]);
    }
  }

  lemma EmptyKeeps()
    ensures Counted(EMPTY) && Responded(EMPTY)
  {
  }

  /**
   * Over every interleaving: the pending count is the number of unfinished handlers, an unfinished
   * handler has no response, and a finished one at most one, under its own request id and origin.
   */
  lemma CountsAndAnswers(allowed: set<string>, events: seq<Event>, h: int)
    requires 0 <= h < |Run(allowed, events).handlers|
    ensures var b := Run(allowed, events);
            && b.pending == Unfinished(b.handlers)
            && (b.handlers[h].phase != Finished ==> b.pending >= 1)
            && Answered(b, h)
  {
    hide Run;
    RunKeeps(allowed, events);
    var b := Run(allowed, events);
    UnfinishedUpdate(b.handlers, h, b.handlers[h]);
  }

  predicate AnswersAt(b: Bridge, event: Event, h: int) { Finishes(b, event, h) && Answers(b, event, h) }

  lemma HandlersGrow(b: Bridge, allowed: set<string>, event: Event)
    ensures |b.handlers| <= |Next(b, allowed, event).handlers|
    ensures event.Arrives? ==>
              && |Next(b, allowed, event).handlers| == |b.handlers| + 1
              && Next(b, allowed, event).handlers[|b.handlers|].phase != Finished
    ensures !event.Arrives? ==> |Next(b, allowed, event).handlers| == |b.handlers|
  {
    hide KeyOf, Check, RequestsAccounts;
  }

  lemma {:induction false} PrefixHandlers(allowed: set<string>, events: seq<Event>, k: nat)
    requires k <= |events|
    ensures |Run(allowed, events[..k]).handlers| <= |Run(allowed, events).handlers|
  {
    hide Next, Run;
    if k == |events| {
      assert events[..k] == events;
    } else {
      var n := |events| - 1;
      assert events[..n][..k] == events[..k];
      PrefixHandlers(allowed, events[..n], k);
      RunLast(allowed, events);
      HandlersGrow(Run(allowed, events[..n]), allowed, events[n]);
    }
  }

  /** Not yet there, not yet finished. */
  lemma FinishesKnown(b: Bridge, event: Event, h: int)
    ensures Finishes(b, event, h) ==> 0 <= h < |b.handlers| && b.handlers[h].phase != Finished
  {
  }

  /**
   * Over every run: a handler has finished exactly when some step finished it, and it has its one response
   * exactly when at that step a post got through; otherwise it has none.
   */
  lemma {:induction false} AnsweredExactly(allowed: set<string>, events: seq<Event>, h: int)
    requires 0 <= h < |Run(allowed, events).handlers|
    ensures var b := Run(allowed, events);
            && (b.handlers[h].phase == Finished <==>
                  exists i :: 0 <= i < |events| && Finishes(Run(allowed, events[..i]), events[i], h))
            && (|Of(b.responses, h)| == 1 <==>
                  exists i :: 0 <= i < |events| && AnswersAt(Run(allowed, events[..i]), events[i], h))
            && |Of(b.responses, h)| <= 1
    decreases |events|
  {
    hide Next, Run, Finishes, AnswersAt, Of, Responded, Counted, KeyOf;
    RunKeeps(allowed, events);
    if events == [] {
      assert Run(allowed, events) == EMPTY by { RunNone(allowed); }
      assert false;
    } else {
      var n := |events| - 1;
      var before := Run(allowed, events[..n]);
      RunLast(allowed, events);
      RunKeeps(allowed, events[..n]);
      HandlersGrow(before, allowed, events[n]);
      assert forall i :: 0 <= i < n ==> events[..n][..i] == events[..i] && events[..n][i] == events[i];
      if h < |before.handlers| {
        AnsweredExactly(allowed, events[..n], h);
        StepAnswers(before, allowed, events[n], h);
      } else {
        NewHandler(Run(allowed, events), h);
        forall i | 0 <= i <= n
          ensures !Finishes(Run(allowed, events[..i]), events[i], h)
          ensures !AnswersAt(Run(allowed, events[..i]), events[i], h)
        {
          assert events[..n][..i] == events[..i];
          PrefixHandlers(allowed, events[..n], i);
          FinishesKnown(Run(allowed, events[..i]), events[i], h);
          AnswersFinish(Run(allowed, events[..i]), events[i], h);
        }
      }
    }
  }

  lemma AnswersFinish(b: Bridge, event: Event, h: int)
    ensures AnswersAt(b, event, h) ==> Finishes(b, event, h)
  {
  }

  lemma NewHandler(b: Bridge, h: int)
    requires Responded(b) && 0 <= h < |b.handlers| && b.handlers[h].phase != Finished
    ensures Of(b.responses, h) == []
  {
    assert Answered(b, h);
  }

  lemma StepAnswers(b: Bridge, allowed: set<string>, event: Event, h: int)
    requires Responded(b) && 0 <= h < |b.handlers|
    ensures var v := Next(b, allowed, event);
            && h < |v.handlers|
            && (v.handlers[h].phase == Finished <==> b.handlers[h].phase == Finished || Finishes(b, event, h))
            && (|Of(v.responses, h)| == 1 <==> |Of(b.responses, h)| == 1 || AnswersAt(b, event, h))
            && |Of(v.responses, h)| <= 1
  {
    hide Next, Of, Finishes, Answers;
    assert Answered(b, h);
    HandlersGrow(b, allowed, event);
    StepResponds(b, allowed, event);
  }

  // ---- Duplicates ----

  /** A validation spans from the duplicate test to the insertion; insertion steps are all distinct. */
  predicate Timed(b: Bridge) {
    && (forall h :: 0 <= h < |b.handlers| ==> TimedOne(b, h))
    && (forall i, j :: 0 <= i < |b.handlers| && 0 <= j < |b.handlers| ==> Overlapping(b, i, j))
    && ExecutedOnce(b)
  }

  predicate ExecutedOnce(b: Bridge) {
    && (forall i :: 0 <= i < |b.executed| ==>
          0 <= b.executed[i] < |b.handlers| && b.handlers[b.executed[i]].admittedAt.Some?
          && (b.handlers[b.executed[i]].phase == Executing || b.handlers[b.executed[i]].phase == Finished))
    && (forall i, j :: 0 <= i < j < |b.executed| ==> b.executed[i] != b.executed[j])
    && (forall h :: 0 <= h < |b.handlers| && b.handlers[h].admittedAt.Some? ==>
          b.handlers[h].phase == Admitted || h in b.executed)
  }

  predicate TimedOne(b: Bridge, h: int)
    requires 0 <= h < |b.handlers|
  {
    var x := b.handlers[h];
    && x.checkedAt < b.clock
    && (x.admittedAt.Some? ==> x.checkedAt <= x.admittedAt.value < b.clock && KeyOf(x.message) in b.handled)
    && (x.admittedAt.Some? && RequestsAccounts(x.message.request.action) ==> x.admittedAt.value == x.checkedAt)
    && (x.phase == Authorizing ==> x.admittedAt.None? && !RequestsAccounts(x.message.request.action))
    && (x.phase == Admitted || x.phase == Executing ==> x.admittedAt.Some?)
  }

  /** Whoever was admitted under a key had been tested before any other insertion of that key. */
  predicate Overlapping(b: Bridge, i: int, j: int)
    requires 0 <= i < |b.handlers| && 0 <= j < |b.handlers|
  {
    var x, y := b.handlers[i], b.handlers[j];
    i != j && x.admittedAt.Some? && (y.admittedAt.Some? || y.phase == Authorizing)
    && KeyOf(x.message) == KeyOf(y.message) ==>
      y.checkedAt < x.admittedAt.value
  }

  lemma ArriveTimed(b: Bridge, allowed: set<string>, m: Message, now: int)
    requires Timed(b)
    ensures Timed(Next(b, allowed, Arrives(m, now)))
  {
    hide KeyOf, RequestsAccounts;
    var v := Next(b, allowed, Arrives(m, now));
    var n := |b.handlers|;
    forall h | 0 <= h < |v.handlers|
      ensures TimedOne(v, h)
    {
      if h < n {
        assert TimedOne(b, h);
      }
    }
    forall i, j | 0 <= i < |v.handlers| && 0 <= j < |v.handlers|
      ensures Overlapping(v, i, j)
    {
      if i < n && j < n {
        assert Overlapping(b, i, j);
      } else if i < n {
        assert TimedOne(b, i);
      } else if j < n {
        assert TimedOne(b, j);
      }
    }
  }

  /** How a step changes the one handler it is about. */
  predicate Moves(b: Bridge, v: Bridge, h: int) {
    && 0 <= h < |b.handlers| == |v.handlers|
    && (forall i :: 0 <= i < |b.handlers| && i != h ==> v.handlers[i] == b.handlers[i])
    && b.clock <= v.clock
    && var x, y := b.handlers[h], v.handlers[h];
    && y.message == x.message && y.checkedAt == x.checkedAt
    && (if x.phase == Authorizing && y.phase == Admitted then
          y.admittedAt == Some(b.clock) && b.clock < v.clock && v.handled == b.handled + {KeyOf(x.message)}
        else y.admittedAt == x.admittedAt && v.handled == b.handled)
    && (y.phase == x.phase || y.phase.Refused? || y.phase == Finished
        || (x.phase == Authorizing && y.phase == Admitted) || (x.phase == Admitted && y.phase == Executing))
    && (x.phase == Admitted ==> y.phase == Admitted || y.phase == Executing)
    && (x.phase == Finished ==> y.phase == Finished)
    && (x.phase == Executing ==> y.phase == Executing || y.phase == Finished)
    && v.executed == b.executed + if x.phase == Admitted && y.phase == Executing then [h] else []
  }

  lemma StepMoves(b: Bridge, allowed: set<string>, event: Event)
    requires !event.Arrives?
    ensures Next(b, allowed, event) == b || Moves(b, Next(b, allowed, event), event.handler)
  {
    hide KeyOf, RequestsAccounts, Check;
    assert b.executed + [] == b.executed;
  }

  lemma MovesTimed(b: Bridge, v: Bridge, h: int)
    requires Timed(b) && Moves(b, v, h)
    ensures Timed(v)
  {
    hide KeyOf, RequestsAccounts;
    forall i | 0 <= i < |v.handlers|
      ensures TimedOne(v, i)
    {
      assert TimedOne(b, i);
    }
    forall i, j | 0 <= i < |v.handlers| && 0 <= j < |v.handlers|
      ensures Overlapping(v, i, j)
    {
      assert Overlapping(b, i, j) && TimedOne(b, i) && TimedOne(b, j);
    }
    MovesExecuted(b, v, h);
  }

  lemma MovesExecuted(b: Bridge, v: Bridge, h: int)
    requires ExecutedOnce(b) && Moves(b, v, h) && TimedOne(b, h)
    ensures ExecutedOnce(v)
  {
    hide KeyOf, RequestsAccounts;
    assert b.handlers[h].phase == Admitted ==> h !in b.executed;
    assert forall x :: x in b.executed ==> x in v.executed;
    assert b.handlers[h].phase == Admitted && v.handlers[h].phase == Executing ==> v.executed[|b.executed|] == h;
  }

  lemma StepTimed(b: Bridge, allowed: set<string>, event: Event)
    requires Timed(b)
    ensures Timed(Next(b, allowed, event))
  {
    hide Timed, Next, Moves;
    if event.Arrives? {
      ArriveTimed(b, allowed, event.message, event.now);
    } else {
      StepMoves(b, allowed, event);
      if Next(b, allowed, event) != b {
        MovesTimed(b, Next(b, allowed, event), event.handler);
      }
    }
  }

  lemma {:induction false} RunTimed(allowed: set<string>, events: seq<Event>)
    ensures Timed(Run(allowed, events))
  {
    hide Timed, Next;
    if events == [] {
      assert Timed(EMPTY) by { EmptyTimed(); }
    } else {
      RunTimed(allowed, events[..|events| - 1]);
      StepTimed(Run(allowed, events[..|events| - 1]), allowed, events[|events| - 1]);
    }
  }

  lemma EmptyTimed()
    ensures Timed(EMPTY)
  {
  }

  /**
   * No handler is executed twice, and two executions under one (origin, requestId, nonce) key can only
   * come from validations that overlap: each was tested before the other was recorded. Two
   * requestAccounts never do, whatever the interleaving.
   */
  lemma ExecutedTwiceOnlyByOverlap(allowed: set<string>, events: seq<Event>, p: int, q: int)
    requires 0 <= p < q < |Run(allowed, events).executed|
    ensures var b := Run(allowed, events);
            && 0 <= b.executed[p] < |b.handlers| && 0 <= b.executed[q] < |b.handlers|
            && b.executed[p] != b.executed[q]
            && var x := b.handlers[b.executed[p]]; var y := b.handlers[b.executed[q]];
            && x.admittedAt.Some? && y.admittedAt.Some?
            && (KeyOf(x.message) == KeyOf(y.message) ==>
                  && x.checkedAt < y.admittedAt.value && y.checkedAt < x.admittedAt.value
                  && !(RequestsAccounts(x.message.request.action) && RequestsAccounts(y.message.request.action)))
  {
    hide Run, KeyOf, RequestsAccounts;
    RunTimed(allowed, events);
    var b := Run(allowed, events);
    var i, j := b.executed[p], b.executed[q];
    assert Overlapping(b, i, j) && Overlapping(b, j, i) && TimedOne(b, i) && TimedOne(b, j);
  }

  /** Two validations of one key that overlap both execute: the second duplicate test came too early. */
  lemma OverlappingDuplicates(b: Bridge, m: Message, allowed: set<string>, now: int)
    requires !RequestsAccounts(m.request.action) && Check(m, allowed, now, b.handled) == None
    ensures var n := |b.handlers|;
            var asked := Next(Next(b, allowed, Arrives(m, now)), allowed, Arrives(m, now));
            var admitted :=
                  Next(Next(asked, allowed, Authorized(n, Some(true))), allowed, Authorized(n + 1, Some(true)));
            var v := Next(Next(admitted, allowed, Continues(n, true, true)), allowed, Continues(n + 1, true, true));
            v.executed == b.executed + [n, n + 1]
  {
    hide KeyOf, RequestsAccounts, Check, Fail, Post;
    var n := |b.handlers|;
    var asked := Next(Next(b, allowed, Arrives(m, now)), allowed, Arrives(m, now));
    assert |asked.handlers| == n + 2 && asked.executed == b.executed;
    assert asked.handlers[n].phase == Authorizing && asked.handlers[n + 1].phase == Authorizing;
    BothExecute(asked, allowed, n);
  }

  lemma BothExecute(b: Bridge, allowed: set<string>, n: int)
    requires 0 <= n && n + 1 < |b.handlers|
    requires b.handlers[n].phase == Authorizing && b.handlers[n + 1].phase == Authorizing
    ensures var admitted := Next(Next(b, allowed, Authorized(n, Some(true))), allowed, Authorized(n + 1, Some(true)));
            var v := Next(Next(admitted, allowed, Continues(n, true, true)), allowed, Continues(n + 1, true, true));
            v.executed == b.executed + [n, n + 1]
  {
    hide KeyOf, Fail, Post, Conclude;
  }

  // ---- Exactly when a key executes twice ----

  predicate AdmittedAs(b: Bridge, h: int, key: string) {
    0 <= h < |b.handlers| && b.handlers[h].admittedAt.Some? && KeyOf(b.handlers[h].message) == key
  }

  /** Every recorded key is that of an admitted handler. */
  ghost predicate Owned(b: Bridge) { forall key :: key in b.handled ==> exists h :: AdmittedAs(b, h, key) }

  predicate AdmittedPair(b: Bridge, i: int, j: int) {
    && 0 <= i < |b.handlers| && 0 <= j < |b.handlers| && i != j
    && b.handlers[i].admittedAt.Some? && b.handlers[j].admittedAt.Some?
    && KeyOf(b.handlers[i].message) == KeyOf(b.handlers[j].message)
  }

  ghost predicate AdmittedTwice(b: Bridge) { exists i, j :: AdmittedPair(b, i, j) }

  /** A successful authorisation of a handler whose key has been recorded since its own test. */
  predicate Readmits(b: Bridge, event: Event) {
    && event.Authorized? && event.answer == Some(true)
    && 0 <= event.handler < |b.handlers| && b.handlers[event.handler].phase == Authorizing
    && KeyOf(b.handlers[event.handler].message) in b.handled
  }

  /** For a handler awaiting authorisation, another is admitted under its key exactly when the key is recorded. */
  lemma RecordedExactly(b: Bridge, h: int)
    requires Timed(b) && Owned(b) && 0 <= h < |b.handlers| && b.handlers[h].phase == Authorizing
    ensures KeyOf(b.handlers[h].message) in b.handled <==>
              exists j :: j != h && AdmittedAs(b, j, KeyOf(b.handlers[h].message))
  {
    hide KeyOf, RequestsAccounts, Overlapping, ExecutedOnce;
    var key := KeyOf(b.handlers[h].message);
    assert TimedOne(b, h);
    if key in b.handled {
      var j :| AdmittedAs(b, j, key);
      assert j != h;
    }
    forall j | AdmittedAs(b, j, key)
      ensures key in b.handled
    {
      assert TimedOne(b, j);
    }
  }

  lemma ArriveOwned(b: Bridge, allowed: set<string>, m: Message, now: int)
    requires Timed(b) && Owned(b)
    ensures Owned(Arrive(b, allowed, m, now))
    ensures AdmittedTwice(Arrive(b, allowed, m, now)) <==> AdmittedTwice(b)
  {
    hide KeyOf, RequestsAccounts, Overlapping, ExecutedOnce;
    var v, n := Arrive(b, allowed, m, now), |b.handlers|;
    forall key | key in v.handled
      ensures exists h :: AdmittedAs(v, h, key)
    {
      if key in b.handled {
        var h :| AdmittedAs(b, h, key);
        assert AdmittedAs(v, h, key);
      } else {
        assert AdmittedAs(v, n, key);
      }
    }
    forall i, j
      ensures AdmittedPair(v, i, j) <==> AdmittedPair(b, i, j)
    {
      assert 0 <= i < n ==> TimedOne(b, i);
      assert 0 <= j < n ==> TimedOne(b, j);
      assert v.handlers[n].admittedAt.Some? ==> KeyOf(m) !in b.handled by { AdmittedFresh(b, allowed, m, now); }
    }
  }

  lemma AdmittedFresh(b: Bridge, allowed: set<string>, m: Message, now: int)
    ensures var h := Arrive(b, allowed, m, now).handlers[|b.handlers|];
            h.admittedAt.Some? ==> KeyOf(m) !in b.handled && h.message == m
  {
    hide KeyOf, RequestsAccounts;
  }

  lemma MovesOwned(b: Bridge, v: Bridge, h: int)
    requires Timed(b) && Owned(b) && Moves(b, v, h)
    ensures Owned(v)
    ensures AdmittedTwice(v) <==>
              AdmittedTwice(b) || (b.handlers[h].phase == Authorizing && v.handlers[h].phase == Admitted
                                   && KeyOf(b.handlers[h].message) in b.handled)
  {
    hide KeyOf, RequestsAccounts, Overlapping, ExecutedOnce;
    var key := KeyOf(b.handlers[h].message);
    var enters := b.handlers[h].phase == Authorizing && v.handlers[h].phase == Admitted;
    assert TimedOne(b, h);
    forall k | k in v.handled
      ensures exists i :: AdmittedAs(v, i, k)
    {
      if k in b.handled {
        var i :| AdmittedAs(b, i, k);
        assert AdmittedAs(v, i, k);
      } else {
        assert AdmittedAs(v, h, k);
      }
    }
    if AdmittedTwice(b) {
      var i, j :| AdmittedPair(b, i, j);
      assert AdmittedPair(v, i, j);
    }
    if enters && key in b.handled {
      RecordedExactly(b, h);
      var j :| j != h && AdmittedAs(b, j, key);
      assert AdmittedPair(v, h, j);
    }
    if i, j :| AdmittedPair(v, i, j) {
      if (i != h && j != h) || !enters {
        assert AdmittedPair(b, i, j);
      } else {
        var other := if i == h then j else i;
        assert TimedOne(b, other);
      }
    }
  }

  /** A step makes two handlers admitted under one key exactly when it re-admits. */
  lemma StepOwned(b: Bridge, allowed: set<string>, event: Event)
    requires Timed(b) && Owned(b)
    ensures Owned(Next(b, allowed, event))
    ensures AdmittedTwice(Next(b, allowed, event)) <==> AdmittedTwice(b) || Readmits(b, event)
  {
    hide Timed, Owned, AdmittedTwice, KeyOf;
    var v := Next(b, allowed, event);
    if event.Arrives? {
      ArriveNext(b, allowed, event);
      ArriveOwned(b, allowed, event.message, event.now);
    } else {
      StepMoves(b, allowed, event);
      ReadmitMoves(b, allowed, event);
      if v != b {
        MovesOwned(b, v, event.handler);
      }
    }
  }

  lemma ReadmitMoves(b: Bridge, allowed: set<string>, event: Event)
    requires !event.Arrives?
    ensures var h := event.handler; var v := Next(b, allowed, event);
            0 <= h < |b.handlers| ==>
              (b.handlers[h].phase == Authorizing && v.handlers[h].phase == Admitted <==>
                 event.Authorized? && event.answer == Some(true) && b.handlers[h].phase == Authorizing)
    ensures Next(b, allowed, event) == b ==> !Readmits(b, event)
  {
    hide KeyOf, Post;
  }

  lemma {:induction false} RunOwned(allowed: set<string>, events: seq<Event>)
    ensures Owned(Run(allowed, events)) && Timed(Run(allowed, events))
    ensures AdmittedTwice(Run(allowed, events)) <==>
              exists i :: 0 <= i < |events| && Readmits(Run(allowed, events[..i]), events[i])
  {
    hide Timed, Owned, AdmittedTwice, Readmits, Next, Run;
    RunTimed(allowed, events);
    if events == [] {
      assert Run(allowed, events) == EMPTY by { RunNone(allowed); }
      EmptyOwned();
    } else {
      var n := |events| - 1;
      RunOwned(allowed, events[..n]);
      RunLast(allowed, events);
      StepOwned(Run(allowed, events[..n]), allowed, events[n]);
      assert forall i :: 0 <= i < n ==> events[..n][..i] == events[..i] && events[..n][i] == events[i];
      if Readmits(Run(allowed, events[..n]), events[n]) {
        assert n < |events|;
      }
    }
  }

  lemma RunNone(allowed: set<string>)
    ensures Run(allowed, []) == EMPTY
  {
  }

  lemma RunLast(allowed: set<string>, events: seq<Event>)
    requires events != []
    ensures Run(allowed, events) == Next(Run(allowed, events[..|events| - 1]), allowed, events[|events| - 1])
  {
  }

  lemma EmptyOwned()
    ensures Owned(EMPTY) && !AdmittedTwice(EMPTY)
  {
  }

  predicate SameKey(b: Bridge, p: int, q: int) {
    && 0 <= p < |b.executed| && 0 <= q < |b.executed| && p != q
    && 0 <= b.executed[p] < |b.handlers| && 0 <= b.executed[q] < |b.handlers|
    && KeyOf(b.handlers[b.executed[p]].message) == KeyOf(b.handlers[b.executed[q]].message)
  }

  ghost predicate ExecutedTwice(b: Bridge) { exists p, q :: SameKey(b, p, q) }

  predicate Settled(b: Bridge) { forall h :: 0 <= h < |b.handlers| ==> b.handlers[h].phase != Admitted }

  /**
   * Over every run: one key executes twice only if some step re-admitted, that is, authorised a handler
   * whose key had been recorded since its own test; and once every admitted handler has gone on to
   * execute, exactly then.
   */
  lemma ExecutedTwiceExactly(allowed: set<string>, events: seq<Event>)
    ensures var b := Run(allowed, events);
            var readmitted := exists i :: 0 <= i < |events| && Readmits(Run(allowed, events[..i]), events[i]);
            && (ExecutedTwice(b) ==> readmitted)
            && (Settled(b) ==> (ExecutedTwice(b) <==> readmitted))
  {
    hide Run, KeyOf, Readmits, TimedOne, Overlapping;
    var b := Run(allowed, events);
    RunOwned(allowed, events);
    if p, q :| SameKey(b, p, q) {
      assert AdmittedPair(b, b.executed[p], b.executed[q]);
    }
    if Settled(b) && AdmittedTwice(b) {
      var i, j :| AdmittedPair(b, i, j);
      var p :| 0 <= p < |b.executed| && b.executed[p] == i;
      var q :| 0 <= q < |b.executed| && b.executed[q] == j;
      assert SameKey(b, p, q);
    }
  }

  // ---- What a key names ----

  /** A colon strictly inside the text. */
  predicate InnerColon(s: string) { exists p :: 0 < p < |s| - 1 && s[p] == ':' }

  lemma Joined(origin: string, r: string, n: string)
    ensures var key := Key(origin, r, n);
            && origin + ":" <= key && key[|origin| + 1..] == r + ":" + n
            && |key| == |origin| + |r| + |n| + 2
  {
    assert Key(origin, r, n) == (origin + ":") + (r + ":" + n);
  }

  /** Splitting what follows the origin at any of its colons gives an id and a nonce under the same key. */
  lemma SplitAt(origin: string, rest: string, p: nat)
    requires p < |rest| && rest[p] == ':'
    ensures Key(origin, rest[..p], rest[p + 1..]) == origin + ":" + rest
  {
    assert rest == rest[..p] + ":" + rest[p + 1..];
  }

  /** Exactly which texts are keys of acceptable requests from an origin: ids and nonces are not empty. */
  lemma KeyOfOrigin(origin: string, key: string)
    ensures (exists r, n :: r != "" && n != "" && Key(origin, r, n) == key) <==>
              origin + ":" <= key && InnerColon(key[|origin| + 1..])
  {
    if r, n :| r != "" && n != "" && Key(origin, r, n) == key {
      Joined(origin, r, n);
      assert key[|origin| + 1..][|r|] == ':';
    }
    if origin + ":" <= key && InnerColon(key[|origin| + 1..]) {
      var rest := key[|origin| + 1..];
      var p :| 0 < p < |rest| - 1 && rest[p] == ':';
      SplitAt(origin, rest, p);
      assert origin + ":" + rest == key;
      assert rest[..p] != "" && rest[p + 1..] != "" && Key(origin, rest[..p], rest[p + 1..]) == key;
    }
  }

  /** Equal keys of one origin split the same text; the same id means the same nonce. */
  lemma SameLength(origin: string, r: string, n: string, r': string, n': string)
    requires Key(origin, r, n) == Key(origin, r', n')
    ensures r + ":" + n == r' + ":" + n'
    ensures |r| == |r'| ==> r == r' && n == n'
  {
    Joined(origin, r, n);
    Joined(origin, r', n');
    var s := r + ":" + n;
    assert s[..|r|] == r && s[|r| + 1..] == n;
    var t := r' + ":" + n';
    assert t[..|r'|] == r' && t[|r'| + 1..] == n';
  }

  /** Another id and nonce with the same key split the text elsewhere, at a colon of the id or of the nonce. */
  lemma OtherSplits(origin: string, r: string, n: string, r': string, n': string)
    requires (r', n') != (r, n) && Key(origin, r', n') == Key(origin, r, n)
    ensures |r'| + |n'| == |r| + |n| && |r'| != |r|
    ensures if |r'| < |r| then r[|r'|] == ':' else n[|r'| - |r| - 1] == ':'
  {
    hide Key;
    Joined(origin, r, n);
    Joined(origin, r', n');
    SameLength(origin, r, n, r', n');
    var s := r + ":" + n;
    assert s[|r'|] == (r' + ":" + n')[|r'|] == ':';
  }

  /** A colon of the id or of the nonce gives another reading of the key. */
  lemma ColonSplits(origin: string, r: string, n: string, p: nat)
    requires p < |r| + 1 + |n| && (r + ":" + n)[p] == ':' && p != |r|
    ensures var s := r + ":" + n;
            && (s[..p], s[p + 1..]) != (r, n) && Key(origin, s[..p], s[p + 1..]) == Key(origin, r, n)
            && |s[..p]| == p && |s[p + 1..]| == |r| + |n| - p
  {
    hide Key;
    var s := r + ":" + n;
    SplitAt(origin, s, p);
    Joined(origin, r, n);
    assert origin + ":" + s == Key(origin, r, n);
    assert |s[..p]| == p;
  }

  /** Within one origin another pair of id and nonce has the same key exactly when the id or the nonce holds a colon. */
  lemma KeyInjective(origin: string, r: string, n: string)
    ensures (exists r', n' :: (r', n') != (r, n) && Key(origin, r', n') == Key(origin, r, n)) <==> ':' in r || ':' in n
  {
    hide Key;
    if r', n' :| (r', n') != (r, n) && Key(origin, r', n') == Key(origin, r, n) {
      OtherSplits(origin, r, n, r', n');
    }
    if ':' in r {
      var p :| 0 <= p < |r| && r[p] == ':';
      ColonSplits(origin, r, n, p);
    } else if ':' in n {
      var p :| 0 <= p < |n| && n[p] == ':';
      ColonSplits(origin, r, n, |r| + 1 + p);
    }
  }

  /** Among acceptable pairs, exactly when the id holds a colon past its start or the nonce one before its end. */
  lemma AcceptableKeyInjective(origin: string, r: string, n: string)
    requires r != "" && n != ""
    ensures (exists r', n' :: r' != "" && n' != "" && (r', n') != (r, n) && Key(origin, r', n') == Key(origin, r, n))
            <==> ':' in r[1..] || ':' in n[..|n| - 1]
  {
    hide Key;
    if r', n' :| r' != "" && n' != "" && (r', n') != (r, n) && Key(origin, r', n') == Key(origin, r, n) {
      OtherSplits(origin, r, n, r', n');
      if |r'| < |r| {
        assert r[1..][|r'| - 1] == ':';
      } else {
        assert n[..|n| - 1][|r'| - |r| - 1] == ':';
      }
    }
    if ':' in r[1..] {
      var p :| 0 <= p < |r| - 1 && r[1..][p] == ':';
      ColonSplits(origin, r, n, p + 1);
    } else if ':' in n[..|n| - 1] {
      var p :| 0 <= p < |n| - 1 && n[..|n| - 1][p] == ':';
      ColonSplits(origin, r, n, |r| + 1 + p);
    }
  }

  /**
   * Acceptable requests of two origins share a key for some ids and nonces exactly when one origin extends
   * the other by a colon.
   */
  lemma OriginsCollide(o: string, o': string)
    ensures (exists r, n, r', n' :: r != "" && n != "" && r' != "" && n' != "" && Key(o, r, n) == Key(o', r', n')) <==>
              o == o' || o + ":" <= o' || o' + ":" <= o
  {
    if r, n, r', n' :| r != "" && n != "" && r' != "" && n' != "" && Key(o, r, n) == Key(o', r', n') {
      Joined(o, r, n);
      Joined(o', r', n');
      var key := Key(o, r, n);
      assert key[..|o| + 1] == o + ":" && key[..|o'| + 1] == o' + ":";
      if |o| < |o'| {
        assert o' == key[..|o'|] && (o + ":") == o'[..|o| + 1];
      } else if |o'| < |o| {
        assert o == key[..|o|] && (o' + ":") == o[..|o'| + 1];
      } else {
        assert o == key[..|o|] == o';
      }
    }
    if o == o' {
      assert Key(o, "a", "b") == Key(o', "a", "b");
    } else if o + ":" <= o' {
      Extended(o, o');
    } else if o' + ":" <= o {
      Extended(o', o);
    }
  }

  lemma Extended(o: string, o': string)
    requires o + ":" <= o'
    ensures exists r, n, r', n' :: r != "" && n != "" && r' != "" && n' != "" && Key(o, r, n) == Key(o', r', n')
  {
    var port := o'[|o| + 1..];
    assert o' == o + ":" + port;
    var r, n := port + ":a", "b";
    assert Key(o, r, n) ==
          o + ":" + (port + ":a") + ":" + "b" == (o + ":" + port) + ":" + "a" + ":" + "b" == Key(o', "a", "b");
  }

  /**
   * A message that passes every other check is turned away as a duplicate exactly when a handler has been
   * admitted under its key, be it of the same request or not.
   */
  lemma DuplicateExactly(b: Bridge, allowed: set<string>, m: Message, now: int)
    requires Timed(b) && Owned(b) && Check(m, allowed, now, {}) == None
    ensures Check(m, allowed, now, b.handled) == Some(Duplicate) <==> exists h :: AdmittedAs(b, h, KeyOf(m))
    ensures Check(m, allowed, now, b.handled) == None <==> !exists h :: AdmittedAs(b, h, KeyOf(m))
  {
    hide KeyOf, RequestsAccounts, Overlapping, ExecutedOnce;
    forall h | AdmittedAs(b, h, KeyOf(m))
      ensures KeyOf(m) in b.handled
    {
      assert TimedOne(b, h);
    }
  }

  /**
   * A request never seen before is turned away as the duplicate of another: of one from the origin without
   * the port, whose request id is that port, and of one from its own origin with the colon moved.
   */
  lemma KeyCollision(origin: string, port: string, a: string, b: string, now: int)
    requires origin != "" && port != "" && a != "" && b != "" && now > 0
    ensures var allowed := {origin, origin + ":" + port};
            var seen := Message(Request(port, "", "requestAccounts", a + ":" + b, now), origin, true);
            var unseen := Message(Request(a, "", "requestAccounts", b, now), origin + ":" + port, true);
            && Check(seen, allowed, now, {}) == None && Check(unseen, allowed, now, {}) == None
            && Check(unseen, allowed, now, Arrive(EMPTY, allowed, seen, now).handled) == Some(Duplicate)
    ensures var allowed := {origin};
            var seen := Message(Request(port + ":" + a, "", "requestAccounts", b, now), origin, true);
            var unseen := Message(Request(port, "", "requestAccounts", a + ":" + b, now), origin, true);
            && Check(seen, allowed, now, {}) == None && Check(unseen, allowed, now, {}) == None
            && Check(unseen, allowed, now, Arrive(EMPTY, allowed, seen, now).handled) == Some(Duplicate)
  {
    assert Key(origin, port, a + ":" + b) == Key(origin + ":" + port, a, b) by {
      assert origin + ":" + port + ":" + (a + ":" + b) == origin + ":" + port + ":" + a + ":" + b;
    }
    assert Key(origin, port + ":" + a, b) == Key(origin, port, a + ":" + b) by {
      assert origin + ":" + (port + ":" + a) + ":" + b == origin + ":" + port + ":" + (a + ":" + b);
    }
  }

  // ---- Which messages are acted on ----

  /**
   * A message the bridge may act on: from an allowed origin and the DApp's frame, with an id, an action and a
   * nonce, not expired, and naming its own origin if any.
   */
  predicate Sound(m: Message, allowed: set<string>, now: int) {
    && m.eventOrigin in allowed && m.fromFrame
    && m.request.requestId != "" && m.request.action != "" && m.request.nonce != ""
    && m.request.expiresAt != 0 && now <= m.request.expiresAt
    && m.request.origin in {"", m.eventOrigin}
  }

  /** A message passes exactly when it is sound and its key is new, and is refused for what is wrong with it first. */
  lemma CheckExactly(m: Message, allowed: set<string>, now: int, handled: set<string>)
    ensures Check(m, allowed, now, handled) == None <==> Sound(m, allowed, now) && KeyOf(m) !in handled
    ensures Check(m, allowed, now, handled) == Some(OriginNotAllowed) <==> m.eventOrigin !in allowed
    ensures Check(m, allowed, now, handled) == Some(WrongSource) <==> m.eventOrigin in allowed && !m.fromFrame
    ensures Check(m, allowed, now, handled) == Some(OriginMismatch) <==>
              && m.request.origin !in {"", m.eventOrigin} && KeyOf(m) !in handled
              && Sound(m.(request := m.request.(origin := "")), allowed, now)
    ensures Check(m, allowed, now, handled) == Some(Duplicate) <==>
              KeyOf(m) in handled && Sound(m.(request := m.request.(origin := "")), allowed, now)
  {
    hide KeyOf;
  }

  /** What becomes of an arriving message: refused exactly when it is not sound or its key is recorded. */
  lemma ArrivalExactly(b: Bridge, allowed: set<string>, m: Message, now: int)
    ensures var v := Next(b, allowed, Arrives(m, now));
            && |v.handlers| == |b.handlers| + 1 && v.handlers[|b.handlers|].message == m
            && (v.handlers[|b.handlers|].phase.Refused? <==> !(Sound(m, allowed, now) && KeyOf(m) !in b.handled))
            && (v.handlers[|b.handlers|].phase == Admitted <==>
                  && Sound(m, allowed, now) && KeyOf(m) !in b.handled
                  && m.request.action in {"requestAccounts", "REQUEST_ACCOUNTS"})
            && (v.handlers[|b.handlers|].phase == Authorizing || v.handlers[|b.handlers|].phase == Admitted
                || v.handlers[|b.handlers|].phase.Refused?)
            && (v.handlers[|b.handlers|].admittedAt.Some? <==> v.handlers[|b.handlers|].phase == Admitted)
  {
    hide KeyOf, Check, Sound;
    CheckExactly(m, allowed, now, b.handled);
  }

  /** A handler executes exactly in the step that continues it once admitted, and only a positive answer admits it. */
  lemma ExecutesExactly(b: Bridge, allowed: set<string>, event: Event)
    ensures Next(b, allowed, event).executed ==
              b.executed + (if event.Continues? && 0 <= event.handler < |b.handlers|
                               && b.handlers[event.handler].phase == Admitted
                            then [event.handler] else [])
    ensures forall h :: 0 <= h < |b.handlers| && b.handlers[h].phase == Authorizing ==>
              (Next(b, allowed, event).handlers[h].phase == Admitted <==> event == Authorized(h, Some(true)))
    ensures forall h :: 0 <= h < |b.handlers| && b.handlers[h].phase == Authorizing
                        && event.Authorized? && event.handler == h && event.answer != Some(true) ==>
              Next(b, allowed, event).handlers[h].phase == Refused(NotConnected)
  {
    hide KeyOf, Check, RequestsAccounts;
    assert b.executed + [] == b.executed;
  }

  /** The last error: cleared by an arrival, set by a handler that finishes in failure, and kept otherwise. */
  lemma LastError(b: Bridge, allowed: set<string>, event: Event)
    ensures var v := Next(b, allowed, event);
            v.lastError == match event
                           case Arrives(_, _) => None
                           case Authorized(_, _) => b.lastError
                           case Continues(h, _, _) =>
                             if Finishes(b, event, h) then Some(b.handlers[h].phase.failure) else b.lastError
                           case Settles(h, works, frame, posts, _) =>
                             if !Finishes(b, event, h) || (works && (!frame || posts)) then b.lastError
                             else Some(if works then PostFailed else ActionFailed)
  {
    hide KeyOf, Check, RequestsAccounts;
  }

  /** The step at which handler h arrived, with a message that was sound then. */
  predicate ArrivedSound(allowed: set<string>, events: seq<Event>, i: int, h: int, m: Message) {
    && 0 <= i < |events| && events[i].Arrives? && events[i].message == m
    && |Run(allowed, events[..i]).handlers| == h && Sound(m, allowed, events[i].now)
  }

  /** The origin was authorised for handler h after step i. */
  predicate AuthorizedAfter(events: seq<Event>, i: int, h: int) {
    exists j :: i < j < |events| && 0 <= j && events[j] == Authorized(h, Some(true))
  }

  ghost predicate Admission(allowed: set<string>, events: seq<Event>, h: int, x: Handler) {
    exists i :: && ArrivedSound(allowed, events, i, h, x.message)
                && (x.admittedAt.Some? ==>
                      RequestsAccounts(x.message.request.action) || AuthorizedAfter(events, i, h))
  }

  lemma AdmissionStays(allowed: set<string>, events: seq<Event>, h: int, x: Handler, e: Event, y: Handler)
    requires Admission(allowed, events, h, x) && y.message == x.message
    requires y.admittedAt.Some? ==> x.admittedAt.Some? || e == Authorized(h, Some(true))
    ensures Admission(allowed, events + [e], h, y)
  {
    hide Run, Sound, RequestsAccounts;
    var more := events + [e];
    var i :| && ArrivedSound(allowed, events, i, h, x.message)
             && (x.admittedAt.Some? ==>
                   RequestsAccounts(x.message.request.action) || AuthorizedAfter(events, i, h));
    assert more[..i] == events[..i] && more[i] == events[i];
    assert ArrivedSound(allowed, more, i, h, y.message);
    if AuthorizedAfter(events, i, h) {
      var j :| i < j < |events| && 0 <= j && events[j] == Authorized(h, Some(true));
      assert more[j] == events[j];
    } else if e == Authorized(h, Some(true)) {
      assert more[|events|] == e;
    }
  }

  lemma {:induction false} RunAdmits(allowed: set<string>, events: seq<Event>, h: int)
    requires 0 <= h < |Run(allowed, events).handlers|
    ensures var x := Run(allowed, events).handlers[h];
            x.admittedAt.Some? || x.phase == Authorizing ==> Admission(allowed, events, h, x)
    decreases |events|
  {
    hide Next, Run, Sound, KeyOf, RequestsAccounts, Check, Admission;
    if events == [] {
      RunNone(allowed);
      assert false;
    } else {
      var n := |events| - 1;
      var before, e := events[..n], events[n];
      var b := Run(allowed, before);
      RunLast(allowed, events);
      assert events == before + [e];
      if e.Arrives? && h == |b.handlers| {
        ArrivalAdmits(allowed, before, e, h);
      } else {
        StepAdmits(b, allowed, e, h);
        RunAdmits(allowed, before, h);
        var x, y := b.handlers[h], Next(b, allowed, e).handlers[h];
        if x.admittedAt.Some? || x.phase == Authorizing {
          AdmissionStays(allowed, before, h, x, e, y);
        }
      }
    }
  }

  lemma ArrivalAdmits(allowed: set<string>, before: seq<Event>, e: Event, h: int)
    requires e.Arrives? && h == |Run(allowed, before).handlers|
    ensures var x := Next(Run(allowed, before), allowed, e).handlers;
            |x| == h + 1 && (x[h].admittedAt.Some? || x[h].phase == Authorizing ==>
                               Admission(allowed, before + [e], h, x[h]))
  {
    hide Next, Run, Sound, KeyOf;
    var b, events := Run(allowed, before), before + [e];
    ArrivalExactly(b, allowed, e.message, e.now);
    assert events[..|before|] == before && events[|before|] == e;
    var x := Next(b, allowed, e).handlers[h];
    if x.admittedAt.Some? || x.phase == Authorizing {
      assert ArrivedSound(allowed, events, |before|, h, x.message);
    }
  }

  /** What a step can do to a handler that was there before it. */
  lemma StepAdmits(b: Bridge, allowed: set<string>, e: Event, h: int)
    requires 0 <= h < |Next(b, allowed, e).handlers| && !(e.Arrives? && h == |b.handlers|)
    ensures h < |b.handlers|
    ensures var x, y := b.handlers[h], Next(b, allowed, e).handlers[h];
            && y.message == x.message
            && (y.phase == Authorizing ==> x.phase == Authorizing)
            && (y.admittedAt.Some? ==>
                  x.admittedAt.Some? || (x.phase == Authorizing && e == Authorized(h, Some(true))))
  {
    hide KeyOf, Check, RequestsAccounts;
  }

  /**
   * Over every run, only sound messages execute, sound when they arrived, and unless they ask for accounts only
   * after their origin was authorised for them.
   */
  lemma ExecutedSound(allowed: set<string>, events: seq<Event>, h: int)
    requires h in Run(allowed, events).executed
    ensures 0 <= h < |Run(allowed, events).handlers|
    ensures var m := Run(allowed, events).handlers[h].message;
            exists i :: && ArrivedSound(allowed, events, i, h, m)
                        && (RequestsAccounts(m.request.action) || AuthorizedAfter(events, i, h))
  {
    hide Run, Overlapping, TimedOne, RequestsAccounts, ArrivedSound, AuthorizedAfter;
    RunTimed(allowed, events);
    var b := Run(allowed, events);
    var k :| 0 <= k < |b.executed| && b.executed[k] == h;
    RunAdmits(allowed, events, h);
  }

  // ---- The bridge itself ----

  class PwaDappBridge {
    const allowedOrigins: set<string>
    var pendingRequests: int
    var handledRequests: set<string>
    var lastError: Option<Failure>
    var handlers: seq<Handler>
    var executed: seq<int>
    var posted: seq<Response>
    var clock: nat

    constructor (allowedOrigins: set<string>)
      ensures this.allowedOrigins == allowedOrigins && View() == EMPTY
    {
      this.allowedOrigins := allowedOrigins;
      pendingRequests, handledRequests, lastError, handlers, executed, posted, clock := 0, {}, None, [], [], [], 0;
    }

    function View(): Bridge
      reads this
    {
      Bridge(clock, handlers, pendingRequests, handledRequests, executed, posted, lastError)
    }

    /** handleMessage up to its first await. */
    method HandleMessage(message: Message, now: int)
      modifies this
      ensures View() == Next(old(View()), allowedOrigins, Arrives(message, now))
      ensures |handlers| == |old(handlers)| + 1 && handlers[|old(handlers)|].message == message
      ensures handlers[|old(handlers)|].phase.Refused? <==>
                !(Sound(message, allowedOrigins, now) && KeyOf(message) !in old(handledRequests))
    {
      hide KeyOf, RequestsAccounts, Sound;
      ArrivalExactly(View(), allowedOrigins, message, now);
      pendingRequests := pendingRequests + 1;
      lastError := None;
      var request, refused := message.request, None;
      if message.eventOrigin !in allowedOrigins {
        refused := Some(OriginNotAllowed);
      } else if !message.fromFrame {
        refused := Some(WrongSource);
      } else if request.requestId == "" || request.action == "" || request.nonce == "" || request.expiresAt == 0 {
        refused := Some(InvalidEnvelope);
      } else if request.expiresAt < now {
        refused := Some(Expired);
      } else if KeyOf(message) in handledRequests {
        refused := Some(Duplicate);
      } else if request.origin != "" && request.origin != message.eventOrigin {
        refused := Some(OriginMismatch);
      }
      if refused.Some? {
        handlers := handlers + [Handler(message, Refused(refused.value), clock, None)];
      } else if RequestsAccounts(request.action) {
        handledRequests := handledRequests + {KeyOf(message)};
        handlers := handlers + [Handler(message, Admitted, clock, Some(clock))];
      } else {
        handlers := handlers + [Handler(message, Authorizing, clock, None)];
      }
      clock := clock + 1;
    }

    /** validateRequest after isOriginAuthorized; None when that lookup itself threw. */
    method ResumeValidation(h: int, answer: Option<bool>)
      requires 0 <= h < |handlers| && handlers[h].phase == Authorizing
      modifies this
      ensures View() == Next(old(View()), allowedOrigins, Authorized(h, answer))
    {
      hide KeyOf;
      if answer == Some(true) {
        handledRequests := handledRequests + {KeyOf(handlers[h].message)};
        handlers := handlers[h := handlers[h].(phase := Admitted, admittedAt := Some(clock))];
      } else {
        handlers := handlers[h := handlers[h].(phase := Refused(NotConnected))];
      }
      clock := clock + 1;
    }

    /** handleMessage once validateRequest has settled. */
    method ResumeHandler(h: int, frame: bool, failurePosts: bool)
      requires 0 <= h < |handlers| && (handlers[h].phase == Admitted || handlers[h].phase.Refused?)
      modifies this
      ensures View() == Next(old(View()), allowedOrigins, Continues(h, frame, failurePosts))
    {
      if handlers[h].phase == Admitted {
        executed := executed + [h];
        handlers := handlers[h := handlers[h].(phase := Executing)];
        clock := clock + 1;
      } else {
        CatchAndFinish(h, handlers[h].phase.failure, frame, failurePosts);
      }
    }

    /** handleMessage once the action has settled. */
    method ResumeAction(h: int, works: bool, frame: bool, posts: bool, failurePosts: bool)
      requires 0 <= h < |handlers| && handlers[h].phase == Executing
      modifies this
      ensures View() == Next(old(View()), allowedOrigins, Settles(h, works, frame, posts, failurePosts))
    {
      if !works {
        CatchAndFinish(h, ActionFailed, frame, failurePosts);
      } else if frame && !posts {
        CatchAndFinish(h, PostFailed, frame, failurePosts);
      } else {
        if frame {
          var m := handlers[h].message;
          posted := posted + [Response(h, m.request.requestId, m.eventOrigin, true)];
        }
        Finish(h);
      }
    }

    method CatchAndFinish(h: int, failure: Failure, frame: bool, failurePosts: bool)
      requires 0 <= h < |handlers|
      modifies this
      ensures View() == Fail(old(View()), h, failure, frame, failurePosts)
    {
      lastError := Some(failure);
      if frame && failurePosts {
        var m := handlers[h].message;
        posted := posted + [Response(h, m.request.requestId, m.eventOrigin, false)];
      }
      Finish(h);
    }

    method Finish(h: int)
      requires 0 <= h < |handlers|
      modifies this`pendingRequests, this`handlers, this`clock
      ensures View() == Conclude(old(View()), h)
    {
      pendingRequests := if pendingRequests - 1 > 0 then pendingRequests - 1 else 0;
      handlers := handlers[h := handlers[h].(phase := Finished)];
      clock := clock + 1;
    }
  }
}
