// Deep-link request/response matching, app/composables/useDeepLinkBridge.ts, as a transition
// function: waits, callbacks, timers, the periodic cleanup and unmounting, in any interleaving.

module DeepLinkSpec {
  import opened Basics
  import opened JsonValues
  import opened StorageAdapter

  datatype Reason = TimedOut | Expired(at: int) | Unmounted | Remote(error: Json)

  /** One call of a promise's resolve or reject. */
  datatype Settlement = Resolved(value: Json) | Rejected(reason: Reason)

  /** A promise of waitForDeepLinkResponse, when it is due to time out, and every settling call made on it. */
  datatype Wait = Wait(session: string, deadline: int, settled: seq<Settlement>)

  datatype Callback = Callback(session: string, action: string, data: Json, timestamp: Option<int>)

  /** What the platform's URL parser hands over; an absent data parameter reads as None. */
  datatype Url = Malformed | Query(session: string, action: string, data: Option<Document>, timestamp: Option<int>)

  /**
   * `pending` is the Map of registered waits in its own order; `timers` are the timeouts neither fired
   * nor cleared; `spent` records waits whose timer a callback cleared before it threw.
   */
  datatype Bridge = Bridge(
    waits: seq<Wait>, timers: set<int>, pending: Items<int>,
    history: seq<Callback>, last: Option<Callback>, dispatched: seq<Callback>, spent: set<int>)

  datatype Event =
    | Open(url: Url)
    | Await(session: string, deadline: int)
    | Fire(id: int)
    | Cleanup(now: int)
    | Unmount

  const EMPTY := Bridge([], {}, [], [], None, [], {})

  const HISTORY_LIMIT := 50

  /** The callback a URL stands for; None when a parameter is missing or the data does not parse. */
  function CallbackOf(url: Url): Option<Callback> {
    if url.Malformed? || url.session == "" || url.action == "" then None
    else match url.data
      case None => Some(Callback(url.session, url.action, JNull, url.timestamp))
      case Some(Parsed(value)) => Some(Callback(url.session, url.action, value, url.timestamp))
      case Some(Unparsable) => None
  }

  function ErrorOf(data: Json): Json {
    var error := if data.JObject? then Field(data.fields, "error") else JNull;
    if Truthy(error) then error else JString("Unknown error")
  }

  /** Building the rejection reason throws. */
  predicate Throws(c: Callback) { c.action == "error" && !Stringable(ErrorOf(c.data)) }

  function Answer(c: Callback): Settlement {
    if c.action == "error" then Rejected(Remote(ErrorOf(c.data))) else Resolved(c.data)
  }

  function Settle(waits: seq<Wait>, id: int, s: Settlement): seq<Wait>
    requires 0 <= id < |waits|
  {
    waits[id := waits[id].(settled := waits[id].settled + [s])]
  }

  /** The waits in `ids`, each rejected once. */
  function RejectAll(waits: seq<Wait>, ids: set<int>, reason: Reason): (r: seq<Wait>)
    ensures |r| == |waits|
  {
    seq(|waits|, i requires 0 <= i < |waits| =>
      if i in ids then waits[i].(settled := waits[i].settled + [Rejected(reason)]) else waits[i])
  }

  function Ids(pending: Items<int>): set<int> { set i | 0 <= i < |pending| :: pending[i].1 }

  function Remember(b: Bridge, c: Callback): Bridge {
    var history := [c] + b.history;
    b.(history := if |history| > HISTORY_LIMIT then history[..HISTORY_LIMIT] else history, last := Some(c))
  }

  function Receive(b: Bridge, c: Callback): Bridge {
    match Lookup(b.pending, c.session)
    case None => Remember(b, c).(dispatched := b.dispatched + [c])
    case Some(id) =>
      var cleared := Remember(b, c).(timers := b.timers - {id});
      if Throws(c) then cleared.(spent := b.spent + {id})
      else if 0 <= id < |b.waits| then
        cleared.(waits := Settle(b.waits, id, Answer(c)), pending := Without(b.pending, c.session))
      else cleared
  }

  function RejectPending(b: Bridge, reason: Reason): Bridge {
    b.(waits := RejectAll(b.waits, Ids(b.pending), reason), timers := b.timers - Ids(b.pending), pending := [])
  }

  function Next(b: Bridge, event: Event): Bridge {
    match event
    case Open(url) => if CallbackOf(url).Some? then Receive(b, CallbackOf(url).value) else b
    case Await(session, deadline) =>
      b.(waits := b.waits + [Wait.Wait(session, deadline, [])], timers := b.timers + {|b.waits|},
         pending := Stored(b.pending, session, |b.waits|))
    case Fire(id) =>
      if id !in b.timers || !(0 <= id < |b.waits|) then b
      else b.(waits := Settle(b.waits, id, Rejected(TimedOut)), timers := b.timers - {id},
              pending := Without(b.pending, b.waits[id].session))
    case Cleanup(now) => RejectPending(b, Expired(now))
    case Unmount => RejectPending(b, Unmounted)
  }

  function RunFrom(b: Bridge, events: seq<Event>): Bridge {
    if events == [] then b else Next(RunFrom(b, events[..|events| - 1]), events[|events| - 1])
  }

  function Run(events: seq<Event>): Bridge { RunFrom(EMPTY, events) }

  // ---- The invariant ----

  predicate Unsettled(b: Bridge, id: int) { 0 <= id < |b.waits| && b.waits[id].settled == [] }

  predicate Owns(b: Bridge, entry: (string, int)) { Unsettled(b, entry.1) && b.waits[entry.1].session == entry.0 }

  /** A registered wait is its session's own and unsettled. */
  predicate Registered(b: Bridge) { DistinctKeys(b.pending) && forall x :: x in b.pending ==> Owns(b, x) }

  predicate Timed(b: Bridge) {
    && (forall id :: id in b.timers ==> Unsettled(b, id))
    && (forall id :: 0 <= id < |b.waits| ==> |b.waits[id].settled| <= 1)
    && (forall id :: 0 <= id < |b.waits| && Unsettled(b, id) ==> id in b.timers || id in b.spent)
    && (forall id :: id in b.spent ==> 0 <= id < |b.waits| && id !in b.timers)
  }

  predicate Invariant(b: Bridge) { Registered(b) && Timed(b) }

  /** A callback that clears the wait's timer and then throws. */
  predicate Hits(b: Bridge, event: Event, id: int) {
    && event.Open? && CallbackOf(event.url).Some? && Throws(CallbackOf(event.url).value)
    && Lookup(b.pending, CallbackOf(event.url).value.session) == Some(id)
  }

  predicate RegisteredAs(b: Bridge, id: int) { 0 <= id < |b.waits| && (b.waits[id].session, id) in b.pending }

  /** A later wait under the same session id, or the timer of another wait under it. */
  predicate Unregisters(b: Bridge, event: Event, id: int) {
    && 0 <= id < |b.waits|
    && match event
       case Await(session, _) => session == b.waits[id].session
       case Fire(other) =>
         other != id && other in b.timers && 0 <= other < |b.waits| && b.waits[other].session == b.waits[id].session
       case _ => false
  }

  /** A URL that reads as a callback: its session, its action, and its data, null when it carries none. */
  predicate Carries(url: Url, session: string, action: string, data: Json) {
    && url.Query? && session != "" && action != "" && url.session == session && url.action == action
    && (if url.data.None? then data == JNull else url.data.value == Parsed(data))
  }

  /** What a callback does to the promise that waits for it; None when it cannot build the error. */
  function Outcome(action: string, data: Json): Option<Settlement> {
    if action != "error" then Some(Resolved(data))
    else if data.JObject? && "error" in data.fields && Truthy(data.fields["error"]) then
      if Stringable(data.fields["error"]) then Some(Rejected(Remote(data.fields["error"]))) else None
    else Some(Rejected(Remote(JString("Unknown error"))))
  }

  /** The event settles wait `id`, and settles it with `s`. */
  predicate Settles(b: Bridge, event: Event, id: int, s: Settlement) {
    && 0 <= id < |b.waits|
    && match event
       case Open(url) =>
         && RegisteredAs(b, id) && url.Query? && Carries(url, b.waits[id].session, url.action, DataOf(url))
         && Outcome(url.action, DataOf(url)) == Some(s)
       case Fire(other) => other == id && id in b.timers && s == Rejected(TimedOut)
       case Cleanup(now) => RegisteredAs(b, id) && s == Rejected(Expired(now))
       case Unmount => RegisteredAs(b, id) && s == Rejected(Unmounted)
       case Await(_, _) => false
  }

  function DataOf(url: Url): Json
    requires url.Query?
  {
    if url.data.Some? && url.data.value.Parsed? then url.data.value.value else JNull
  }

  /** A periodic cleanup that finds the wait registered. */
  predicate Sweeps(b: Bridge, event: Event, id: int) { event.Cleanup? && RegisteredAs(b, id) }

  /** One that comes before the wait is due. */
  predicate SweepsEarly(b: Bridge, event: Event, id: int) { Sweeps(b, event, id) && event.now < b.waits[id].deadline }
}
