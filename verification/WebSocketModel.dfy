/** `WebSocketClient` (frontend/src/api/websocket.ts) as a state machine over what its callers, its sockets and
    its timer can do. Sockets are numbered in the order they are constructed; listeners are taken not to call
    connect or disconnect. */
module WebSocketModel {
  import opened Options
  import opened Arith

  datatype ReadyState = Connecting | Open | Closing | Closed

  const MAX_RECONNECT_ATTEMPTS: nat := 10
  const BASE_RECONNECT_MS: nat := 1000
  const MAX_RECONNECT_MS: nat := 30000
  const SLOW_RETRY_MS: nat := 60000
  const MAX_PAYLOAD_BYTES: nat := 10 * 1024 * 1024

  /**
   The fields of the client and the part of the browser they refer to: the state of every socket ever
   constructed and the delays of the timers that are still pending.
   */
  datatype World = World(
    ws: Option<nat>, shouldReconnect: bool, reconnectTimer: Option<nat>, reconnectAttempts: nat, isConnected: bool,
    sockets: seq<ReadyState>, timers: map<nat, real>, nextTimer: nat)

  /** Random numbers lie in [0, 1); `throws` says whether the socket constructor throws; `bytes` is the size of a text. */
  datatype Event =
    | Connect(throws: bool, random: real)
    | Disconnect
    | SocketOpens(socket: nat)
    | Message(socket: nat, bytes: nat)
    | SocketError(socket: nat)
    | PeerStartsClosing(socket: nat)
    | SocketCloses(socket: nat, random: real)
    | TimerFires(timer: nat, throws: bool, random: real)

  predicate Live(s: ReadyState) {
    s.Connecting? || s.Open?
  }

  const INITIAL: World := World(None, true, None, 0, false, [], map[], 0)

  /** What the browser allows. */
  predicate Enabled(w: World, e: Event) {
    match e
    case Connect(_, random) => 0.0 <= random < 1.0
    case Disconnect => true
    case SocketOpens(s) => s < |w.sockets| && w.sockets[s].Connecting?
    case Message(s, _) => s < |w.sockets| && w.sockets[s].Open?
    case SocketError(s) => s < |w.sockets| && !w.sockets[s].Closed?
    case PeerStartsClosing(s) => s < |w.sockets| && Live(w.sockets[s])
    case SocketCloses(s, random) => s < |w.sockets| && !w.sockets[s].Closed? && 0.0 <= random < 1.0
    case TimerFires(t, _, random) => t in w.timers && 0.0 <= random < 1.0
  }

  /** `close()`: a live socket starts closing, any other is left alone. */
  function Close(sockets: seq<ReadyState>, s: nat): (r: seq<ReadyState>)
    requires s < |sockets|
    ensures |r| == |sockets|
  {
    if Live(sockets[s]) then sockets[s := Closing] else sockets
  }

  function BaseDelay(attempts: nat): nat {
    if attempts < MAX_RECONNECT_ATTEMPTS then
      var exp := BASE_RECONNECT_MS * Pow2(attempts);
      if exp < MAX_RECONNECT_MS then exp else MAX_RECONNECT_MS
    else SLOW_RETRY_MS
  }

  function Jitter(random: real): (r: real)
    ensures 0.0 <= random < 1.0 ==> 0.75 <= r <= 1.25
  {
    0.75 + random * 0.5
  }

  function Delay(attempts: nat, random: real): real {
    BaseDelay(attempts) as real * Jitter(random)
  }

  function CancelReconnect(w: World): World {
    match w.reconnectTimer
    case None => w
    case Some(t) => w.(timers := w.timers - {t}, reconnectTimer := None)
  }

  function ScheduleReconnect(w: World, random: real): World {
    if !w.shouldReconnect then w
    else
      var v := CancelReconnect(w);
      v.(reconnectAttempts := if v.reconnectAttempts < MAX_RECONNECT_ATTEMPTS then v.reconnectAttempts + 1 else v.reconnectAttempts,
         timers := v.timers[v.nextTimer := Delay(v.reconnectAttempts, random)],
         reconnectTimer := Some(v.nextTimer),
         nextTimer := v.nextTimer + 1)
  }

  function OpenSocket(w: World, throws: bool, random: real): World {
    if throws then ScheduleReconnect(w, random)
    else w.(sockets := w.sockets + [Connecting], ws := Some(|w.sockets|))
  }

  predicate HasLiveSocket(w: World) {
    w.ws.Some? && w.ws.value < |w.sockets| && Live(w.sockets[w.ws.value])
  }

  function Step(w: World, e: Event): World
    requires Enabled(w, e)
  {
    match e
    case Connect(throws, random) =>
      if HasLiveSocket(w) then w
      else OpenSocket(CancelReconnect(w.(shouldReconnect := true)), throws, random)
    case Disconnect =>
      var v := CancelReconnect(w.(shouldReconnect := false)).(reconnectAttempts := 0, isConnected := false);
      if w.ws.Some? && w.ws.value < |w.sockets| then v.(sockets := Close(w.sockets, w.ws.value), ws := None)
      else v
    case SocketOpens(s) =>
      var v := w.(sockets := w.sockets[s := Open]);
      if w.ws != Some(s) then v else v.(isConnected := true, reconnectAttempts := 0)
    case Message(s, bytes) =>
      if w.ws != Some(s) || bytes <= MAX_PAYLOAD_BYTES then w else w.(sockets := Close(w.sockets, s))
    case SocketError(_) => w
    case PeerStartsClosing(s) => w.(sockets := w.sockets[s := Closing])
    case SocketCloses(s, random) =>
      var v := w.(sockets := w.sockets[s := Closed]);
      if w.ws != Some(s) then v else ScheduleReconnect(v.(isConnected := false, ws := None), random)
    case TimerFires(t, throws, random) =>
      var v := w.(timers := w.timers - {t}, reconnectTimer := None);
      if !w.shouldReconnect then v else OpenSocket(v, throws, random)
  }

  /** The events can happen one after the other from w. */
  predicate Feasible(w: World, events: seq<Event>)
    decreases |events|
  {
    events == [] || (Enabled(w, events[0]) && Feasible(Step(w, events[0]), events[1..]))
  }

  function Run(w: World, events: seq<Event>): World
    requires Feasible(w, events)
    decreases |events|
  {
    if events == [] then w else Run(Step(w, events[0]), events[1..])
  }

  // ----- The invariant -----

  /** No socket at all is open or connecting. */
  ghost predicate NoneLive(w: World) {
    forall s :: 0 <= s < |w.sockets| ==> !Live(w.sockets[s])
  }

  ghost predicate Inv(w: World) {
    // At most one socket is live, and it is the current one.
    && (w.ws.Some? ==> w.ws.value < |w.sockets|)
    && (forall s :: 0 <= s < |w.sockets| && Live(w.sockets[s]) ==> w.ws == Some(s))
    // At most one timer is pending, and it is the recorded one.
    && w.timers.Keys == (if w.reconnectTimer.Some? then {w.reconnectTimer.value} else {})
    // A timer is pending only while reconnecting is wanted and nothing is live.
    && (w.reconnectTimer.Some? ==> w.reconnectTimer.value < w.nextTimer && w.shouldReconnect && NoneLive(w))
    // Back-off stays bounded.
    && w.reconnectAttempts <= MAX_RECONNECT_ATTEMPTS
    && (forall t :: t in w.timers ==> 750.0 <= w.timers[t] <= 75000.0)
    // The connected flag never misses an open current socket and needs a current socket.
    && (w.ws.Some? && w.sockets[w.ws.value].Open? ==> w.isConnected)
    && (w.isConnected ==> w.ws.Some?)
    // A wish not to reconnect leaves no current socket.
    && (!w.shouldReconnect ==> w.ws.None?)
  }

  lemma DelayBounds(attempts: nat, random: real)
    requires 0.0 <= random < 1.0
    ensures 750.0 <= Delay(attempts, random) <= 75000.0
  {
    hide Jitter, BaseDelay;
    BaseBounds(attempts);
    var base, factor := BaseDelay(attempts) as real, Jitter(random);
    ScaleBounds(base, factor);
    assert Delay(attempts, random) == base * factor;
  }

  lemma ScaleBounds(base: real, factor: real)
    requires 1000.0 <= base <= 60000.0 && 0.75 <= factor <= 1.25
    ensures 750.0 <= base * factor <= 75000.0
  {
    assert 1000.0 * 0.75 <= base * 0.75 <= base * factor;
    assert base * factor <= base * 1.25;
  }

  lemma BaseBounds(attempts: nat)
    ensures 1000 <= BaseDelay(attempts) <= 60000
  {
  }

  lemma ScheduleKeepsInv(w: World, random: real)
    requires Inv(w) && NoneLive(w) && 0.0 <= random < 1.0
    ensures Inv(ScheduleReconnect(w, random))
  {
    hide Delay;
    DelayBounds(w.reconnectAttempts, random);
    var v := CancelReconnect(w);
    assert v.timers == map[] by { assert v.timers.Keys == {}; }
  }

  lemma OpenKeepsInv(w: World, throws: bool, random: real)
    requires Inv(w) && NoneLive(w) && w.reconnectTimer.None? && w.shouldReconnect && 0.0 <= random < 1.0
    ensures Inv(OpenSocket(w, throws, random))
  {
    hide ScheduleReconnect;
    if throws {
      ScheduleKeepsInv(w, random);
    }
  }

  lemma CancelKeepsInv(w: World)
    ensures Inv(w) ==> Inv(CancelReconnect(w))
    ensures var v := CancelReconnect(w); v == w.(timers := v.timers, reconnectTimer := None)
  {
  }

  lemma DisconnectKeepsInv(w: World)
    requires Inv(w)
    ensures Inv(Step(w, Disconnect))
  {
    CancelKeepsInv(w);
  }

  /** Events that neither construct a socket nor touch the timer. */
  lemma SocketEventKeepsInv(w: World, e: Event)
    requires Inv(w) && Enabled(w, e)
    requires e.SocketOpens? || e.Message? || e.SocketError? || e.PeerStartsClosing?
    ensures Inv(Step(w, e))
  {
    hide Delay;
  }

  /** Every event keeps the invariant. */
  lemma StepKeepsInv(w: World, e: Event)
    requires Inv(w) && Enabled(w, e)
    ensures Inv(Step(w, e))
  {
    hide ScheduleReconnect, OpenSocket, Delay, CancelReconnect;
    match e
    case Connect(throws, random) =>
      if !HasLiveSocket(w) {
        CancelKeepsInv(w.(shouldReconnect := true));
        OpenKeepsInv(CancelReconnect(w.(shouldReconnect := true)), throws, random);
      }
    case Disconnect => DisconnectKeepsInv(w);
    case SocketCloses(s, random) =>
      if w.ws == Some(s) {
        var v := w.(sockets := w.sockets[s := Closed], isConnected := false, ws := None);
        ScheduleKeepsInv(v, random);
      }
    case TimerFires(t, throws, random) =>
      assert w.timers - {t} == map[] by { assert (w.timers - {t}).Keys == {}; }
      OpenKeepsInv(w.(timers := w.timers - {t}, reconnectTimer := None), throws, random);
    case _ => SocketEventKeepsInv(w, e);
  }

  /** Safety over whole runs: every state reachable by any events satisfies the invariant. */
  lemma {:induction false} RunKeepsInv(w: World, events: seq<Event>)
    requires Inv(w) && Feasible(w, events)
    ensures Inv(Run(w, events))
    decreases |events|
  {
    hide Inv, Step;
    if events != [] {
      StepKeepsInv(w, events[0]);
      RunKeepsInv(Step(w, events[0]), events[1..]);
    }
  }

  /** What the invariant means for a reader: one live socket at most, one timer at most, never both. */
  lemma SafeStates(events: seq<Event>, s: nat, s': nat, t: nat, t': nat)
    requires Feasible(INITIAL, events)
    ensures var w := Run(INITIAL, events);
            && (s < |w.sockets| && s' < |w.sockets| && Live(w.sockets[s]) && Live(w.sockets[s']) ==> s == s' && w.ws == Some(s))
            && (t in w.timers && t' in w.timers ==> t == t' && w.reconnectTimer == Some(t))
            && (t in w.timers ==> w.shouldReconnect && NoneLive(w) && 750.0 <= w.timers[t] <= 75000.0)
            && w.reconnectAttempts <= MAX_RECONNECT_ATTEMPTS
  {
    hide Step, Feasible, Run;
    RunKeepsInv(INITIAL, events);
  }

  // ----- Superseded sockets -----

  function SocketOf(e: Event): Option<nat> {
    match e
    case SocketOpens(s) => Some(s)
    case Message(s, _) => Some(s)
    case SocketError(s) => Some(s)
    case PeerStartsClosing(s) => Some(s)
    case SocketCloses(s, _) => Some(s)
    case _ => None
  }

  /** An event of a socket that is not the current one changes nothing but that socket's own state. */
  lemma StaleEventsIgnored(w: World, e: Event)
    requires Inv(w) && Enabled(w, e) && SocketOf(e).Some? && SocketOf(e) != w.ws
    ensures var s, v := SocketOf(e).value, Step(w, e);
            |v.sockets| == |w.sockets| && v == w.(sockets := w.sockets[s := v.sockets[s]])
  {
    var s := SocketOf(e).value;
    assert w.sockets[s := w.sockets[s]] == w.sockets;
  }

  // ----- After disconnect -----

  ghost predicate Quiet(w: World) {
    && !w.shouldReconnect && w.ws.None? && w.reconnectTimer.None? && w.timers == map[] && NoneLive(w)
    && !w.isConnected && w.reconnectAttempts == 0
  }

  lemma DisconnectQuiets(w: World)
    requires Inv(w)
    ensures Quiet(Step(w, Disconnect)) && |Step(w, Disconnect).sockets| == |w.sockets|
  {
    hide Delay;
    CancelKeepsInv(w);
    assert Step(w, Disconnect).timers == map[] by { assert Step(w, Disconnect).timers.Keys == {}; }
  }

  /** After disconnect nothing is constructed, opened or scheduled until connect is called again. */
  lemma {:induction false} QuietUntilConnect(w: World, events: seq<Event>)
    requires Quiet(w) && Feasible(w, events) && forall k :: 0 <= k < |events| ==> !events[k].Connect?
    ensures Quiet(Run(w, events)) && |Run(w, events).sockets| == |w.sockets|
    decreases |events|
  {
    hide ScheduleReconnect, OpenSocket;
    if events != [] {
      var e := events[0];
      assert !e.Connect?;
      QuietUntilConnect(Step(w, e), events[1..]);
    }
  }

  lemma {:induction false} NoSocketAfterDisconnect(w: World, events: seq<Event>)
    requires Inv(w) && Feasible(w, [Disconnect] + events) && forall k :: 0 <= k < |events| ==> !events[k].Connect?
    ensures Quiet(Run(w, [Disconnect] + events)) && |Run(w, [Disconnect] + events).sockets| == |w.sockets|
  {
    hide Inv, Quiet;
    assert ([Disconnect] + events)[1..] == events;
    DisconnectQuiets(w);
    QuietUntilConnect(Step(w, Disconnect), events);
  }

  // ----- Never giving up -----

  /** While reconnecting is wanted there is a current socket still to close, or a timer to open the next one. */
  predicate Trying(w: World) {
    w.shouldReconnect ==>
      w.reconnectTimer.Some? || (w.ws.Some? && w.ws.value < |w.sockets| && !w.sockets[w.ws.value].Closed?)
  }

  /** Connecting gives a live current socket, the one there was or a new one, or a timer if the constructor throws. */
  lemma ConnectTries(w: World, throws: bool, random: real)
    requires Inv(w) && Enabled(w, Connect(throws, random))
    ensures var v := Step(w, Connect(throws, random));
            && v.shouldReconnect && Trying(v)
            && (HasLiveSocket(w) ==> v == w)
            && (!HasLiveSocket(w) && !throws ==> |v.sockets| == |w.sockets| + 1 && v.ws == Some(|w.sockets|) && HasLiveSocket(v))
            && (!HasLiveSocket(w) && throws ==> v.sockets == w.sockets && v.reconnectTimer.Some?)
  {
    hide Delay;
  }

  lemma StepKeepsTrying(w: World, e: Event)
    requires Inv(w) && Trying(w) && Enabled(w, e)
    ensures Trying(Step(w, e)) && (w.shouldReconnect && !e.Disconnect? ==> Step(w, e).shouldReconnect)
  {
    hide Delay;
  }

  /** After connect the client never stops trying before disconnect is called. */
  lemma {:induction false} NeverStranded(w: World, events: seq<Event>)
    requires Inv(w) && Trying(w) && Feasible(w, events)
    ensures Trying(Run(w, events))
    ensures (forall k :: 0 <= k < |events| ==> !events[k].Disconnect?) && w.shouldReconnect ==> Run(w, events).shouldReconnect
    decreases |events|
  {
    hide Inv, Trying, Step;
    if events != [] {
      StepKeepsInv(w, events[0]);
      StepKeepsTrying(w, events[0]);
      NeverStranded(Step(w, events[0]), events[1..]);
    }
  }

  // ----- Back-off -----

  /** The number of attempts after n more failures. */
  function AttemptsAfter(attempts: nat, n: nat): nat {
    if attempts + n < MAX_RECONNECT_ATTEMPTS then attempts + n
    else if attempts < MAX_RECONNECT_ATTEMPTS then MAX_RECONNECT_ATTEMPTS
    else attempts
  }

  /** An event of some socket that neither opens nor closes the current one. */
  predicate Bystander(w: World, e: Event) {
    SocketOf(e).Some? && !((e.SocketOpens? || e.SocketCloses?) && SocketOf(e) == w.ws)
  }

  /**
   The run consists of n failed attempts: each time the timer fires, and the constructor throws or the new socket
   closes without having opened, whatever other sockets do in the meantime.
   */
  ghost predicate Fails(w: World, events: seq<Event>, n: nat)
    decreases |events|
  {
    if n == 0 then events == []
    else
      && events != [] && Enabled(w, events[0]) && events[0].TimerFires?
      && var v := Step(w, events[0]);
         if events[0].throws then Fails(v, events[1..], n - 1) else Drops(v, events[1..], n - 1)
  }

  /** The current socket closes, bystanders first, and n failed attempts follow. */
  ghost predicate Drops(w: World, events: seq<Event>, n: nat)
    decreases |events|
  {
    && events != [] && Enabled(w, events[0])
    && var v := Step(w, events[0]);
       if events[0].SocketCloses? && SocketOf(events[0]) == w.ws then Fails(v, events[1..], n)
       else Bystander(w, events[0]) && Drops(v, events[1..], n)
  }

  /** The random number of the event that ended the last attempt. */
  function RandomOf(e: Event): real {
    match e case TimerFires(_, _, random) => random case SocketCloses(_, random) => random case _ => 0.0
  }

  /** One timer is pending, for the attempt after n failures more than in w, the last of them ended by e. */
  ghost predicate RetryPending(v: World, attempts: nat, n: nat, e: Event) {
    && v.shouldReconnect && v.reconnectTimer.Some? && v.timers.Keys == {v.reconnectTimer.value}
    && v.reconnectAttempts == AttemptsAfter(attempts, n)
    && (n > 0 ==> v.timers[v.reconnectTimer.value] == Delay(AttemptsAfter(attempts, n - 1), RandomOf(e)))
  }

  /** An attempt is under way: a current socket, not open, and no timer. */
  ghost predicate Attempting(w: World) {
    && w.shouldReconnect && w.reconnectTimer.None? && w.ws.Some? && w.ws.value < |w.sockets|
    && !w.sockets[w.ws.value].Open?
  }

  lemma FireStep(w: World, e: Event)
    requires Inv(w) && w.shouldReconnect && Enabled(w, e) && e.TimerFires?
    ensures var v := Step(w, e);
            if e.throws then RetryPending(v, w.reconnectAttempts, 1, e)
            else Attempting(v) && v.reconnectAttempts == w.reconnectAttempts
  {
    hide Delay;
    assert w.timers - {e.timer} == map[] by { assert (w.timers - {e.timer}).Keys == {}; }
  }

  lemma DropStep(w: World, e: Event)
    requires Inv(w) && Attempting(w) && Enabled(w, e)
    requires (e.SocketCloses? && SocketOf(e) == w.ws) || Bystander(w, e)
    ensures var v := Step(w, e);
            if e.SocketCloses? && SocketOf(e) == w.ws then RetryPending(v, w.reconnectAttempts, 1, e)
            else Attempting(v) && v.reconnectAttempts == w.reconnectAttempts
  {
    hide Delay;
    if e.SocketCloses? && SocketOf(e) == w.ws {
      assert w.timers == map[] by { assert w.timers.Keys == {}; }
    }
  }

  /** The client retries forever: after n failures in a row one timer is pending, with the back-off of attempt n. */
  lemma {:induction false} BackOff(w: World, events: seq<Event>, n: nat)
    requires Inv(w) && w.shouldReconnect && n > 0 && Fails(w, events, n)
    ensures Feasible(w, events) && RetryPending(Run(w, events), w.reconnectAttempts, n, events[|events| - 1])
    decreases |events|
  {
    hide Inv, Step, RetryPending, Attempting;
    var e, rest := events[0], events[1..];
    var v := Step(w, e);
    FireStep(w, e);
    StepKeepsInv(w, e);
    if !e.throws {
      AttemptingFields(v);
      DropBackOff(v, rest, n - 1);
    } else if n > 1 {
      PendingFields(v, w.reconnectAttempts, 1, e);
      BackOff(v, rest, n - 1);
      LaterPending(Run(v, rest), w.reconnectAttempts, n - 1, rest[|rest| - 1]);
    } else {
      assert Run(v, rest) == v;
    }
  }

  lemma {:induction false} DropBackOff(w: World, events: seq<Event>, n: nat)
    requires Inv(w) && Attempting(w) && Drops(w, events, n)
    ensures Feasible(w, events) && RetryPending(Run(w, events), w.reconnectAttempts, n + 1, events[|events| - 1])
    decreases |events|
  {
    hide Inv, Step, RetryPending, Attempting;
    var e, rest := events[0], events[1..];
    var v := Step(w, e);
    DropStep(w, e);
    StepKeepsInv(w, e);
    if !(e.SocketCloses? && SocketOf(e) == w.ws) {
      DropBackOff(v, rest, n);
    } else if n > 0 {
      PendingFields(v, w.reconnectAttempts, 1, e);
      BackOff(v, rest, n);
      LaterPending(Run(v, rest), w.reconnectAttempts, n, rest[|rest| - 1]);
    } else {
      assert Run(v, rest) == v;
    }
  }

  lemma AttemptingFields(w: World)
    requires Attempting(w)
    ensures w.shouldReconnect
  {
  }

  lemma PendingFields(v: World, attempts: nat, n: nat, e: Event)
    requires RetryPending(v, attempts, n, e)
    ensures v.shouldReconnect && v.reconnectAttempts == AttemptsAfter(attempts, n)
  {
  }

  /** Failures counted from one attempt later. */
  lemma LaterPending(v: World, attempts: nat, n: nat, e: Event)
    requires n > 0 && RetryPending(v, AttemptsAfter(attempts, 1), n, e)
    ensures RetryPending(v, attempts, n + 1, e)
  {
    hide Delay;
  }

  /** The base delays: doubling from one second, capped at half a minute, a minute once the attempts are used up. */
  lemma BaseDelays(n: nat)
    ensures BaseDelay(n) == if n < 5 then 1000 * Pow2(n) else if n < 10 then 30000 else 60000
  {
    if 5 <= n < 10 {
      Pow2Add(5, n - 5);
      assert Pow2(5) == 32;
      assert Pow2(n) >= 32;
    } else if n < 5 {
      Pow2Add(n, 5 - n);
      assert Pow2(n) * Pow2(5 - n) == 32;
      assert Pow2(5 - n) == 2 * Pow2(4 - n);
    }
  }

  /** The spread of a delay: three quarters of its base and, by the random number, up to half of it more. */
  lemma DelaySpread(n: nat, random: real)
    ensures var base := if n < 5 then 1000 * Pow2(n) else if n < 10 then 30000 else 60000;
            Delay(n, random) == base as real * 0.75 + base as real * 0.5 * random
  {
    hide BaseDelay;
    BaseDelays(n);
    Distribute(BaseDelay(n) as real, random);
  }

  lemma Distribute(base: real, random: real)
    ensures base * (0.75 + random * 0.5) == base * 0.75 + base * 0.5 * random
  {
  }

  // ----- Counting attempts -----

  /** The current socket opens, or the client is told to disconnect. */
  predicate Resets(w: World, e: Event) {
    e.Disconnect? || (e.SocketOpens? && SocketOf(e) == w.ws)
  }

  /** An attempt fails, or the current socket closes, while reconnecting is wanted. */
  predicate SchedulesRetry(w: World, e: Event) {
    match e
    case Connect(throws, _) => throws && !HasLiveSocket(w)
    case TimerFires(_, throws, _) => throws && w.shouldReconnect
    case SocketCloses(_, _) => SocketOf(e) == w.ws && w.shouldReconnect
    case _ => false
  }

  /** The retries scheduled since the current socket last opened, since disconnect, or since the start. */
  ghost function RetriesSince(events: seq<Event>): nat
    requires Feasible(INITIAL, events)
    decreases |events|
  {
    if events == [] then 0
    else
      var n := |events| - 1;
      RunBack(INITIAL, events);
      var w := Run(INITIAL, events[..n]);
      if Resets(w, events[n]) then 0
      else RetriesSince(events[..n]) + if SchedulesRetry(w, events[n]) then 1 else 0
  }

  lemma CountStep(w: World, e: Event)
    requires Inv(w) && Enabled(w, e)
    ensures var v := Step(w, e);
            v.reconnectAttempts == if Resets(w, e) then 0
                                   else if SchedulesRetry(w, e) && w.reconnectAttempts < 10 then w.reconnectAttempts + 1
                                   else w.reconnectAttempts
  {
    hide Delay;
  }

  /** Over whole runs the attempts are the retries since then, up to ten. */
  lemma {:induction false} AttemptsCount(events: seq<Event>)
    requires Feasible(INITIAL, events)
    ensures Run(INITIAL, events).reconnectAttempts == if RetriesSince(events) < 10 then RetriesSince(events) else 10
    decreases |events|
  {
    hide Inv, Step, Run, Feasible, Enabled, Resets, SchedulesRetry;
    if events == [] {
      NothingRun();
    } else {
      var n := |events| - 1;
      RunBack(INITIAL, events);
      AttemptsCount(events[..n]);
      InitialInv();
      RunKeepsInv(INITIAL, events[..n]);
      CountStep(Run(INITIAL, events[..n]), events[n]);
    }
  }

  lemma NothingRun()
    ensures Run(INITIAL, []) == INITIAL
  {
  }

  lemma OpenStep(w: World, e: Event)
    requires Inv(w) && Enabled(w, e) && (CurrentOpen(w) ==> w.reconnectAttempts == 0)
    ensures var v := Step(w, e); CurrentOpen(v) ==> v.reconnectAttempts == 0
  {
    hide Delay;
  }

  /** While the current socket is open no attempt is counted. */
  lemma {:induction false} OpenMeansNoAttempts(events: seq<Event>)
    requires Feasible(INITIAL, events)
    ensures CurrentOpen(Run(INITIAL, events)) ==> Run(INITIAL, events).reconnectAttempts == 0
    decreases |events|
  {
    hide Inv, Step, Run, Feasible, Enabled, CurrentOpen;
    if events == [] {
      NothingRun();
    } else {
      var n := |events| - 1;
      RunBack(INITIAL, events);
      OpenMeansNoAttempts(events[..n]);
      InitialInv();
      RunKeepsInv(INITIAL, events[..n]);
      OpenStep(Run(INITIAL, events[..n]), events[n]);
    }
  }

  /** A current socket and no timer, with some count of attempts. */
  predicate Holding(w: World, attempts: nat) {
    w.shouldReconnect && w.reconnectTimer.None? && w.ws.Some? && w.ws.value < |w.sockets| && w.reconnectAttempts == attempts
  }

  lemma DropFromOpenStep(w: World, e: Event)
    requires Inv(w) && Holding(w, 0) && Enabled(w, e)
    requires (e.SocketCloses? && SocketOf(e) == w.ws) || Bystander(w, e)
    ensures var v := Step(w, e);
            if e.SocketCloses? && SocketOf(e) == w.ws then
              v.reconnectAttempts == 1 && v.timers == map[w.nextTimer := Delay(0, RandomOf(e))]
            else Holding(v, 0)
  {
    hide Delay;
    assert w.timers == map[] by { assert w.timers.Keys == {}; }
  }

  lemma {:induction false} DropFromOpen(w: World, events: seq<Event>) returns (t: nat)
    requires Inv(w) && Holding(w, 0) && Drops(w, events, 0)
    ensures Feasible(w, events) && events != []
    ensures var v := Run(w, events);
            v.reconnectAttempts == 1 && v.timers == map[t := Delay(0, RandomOf(events[|events| - 1]))]
    decreases |events|
  {
    hide Inv, Step, Holding, Delay;
    var e, rest := events[0], events[1..];
    var v := Step(w, e);
    DropFromOpenStep(w, e);
    StepKeepsInv(w, e);
    if e.SocketCloses? && SocketOf(e) == w.ws {
      assert Run(v, rest) == v;
      t := w.nextTimer;
    } else {
      t := DropFromOpen(v, rest);
    }
  }

  lemma OpenIsHolding(w: World)
    requires Inv(w) && CurrentOpen(w) && w.reconnectAttempts == 0
    ensures Holding(w, 0)
  {
  }

  /** However many attempts it took to open, the first retry after an open socket drops comes about a second later. */
  lemma FirstRetryIsFast(events: seq<Event>, drop: seq<Event>) returns (t: nat)
    requires Feasible(INITIAL, events) && CurrentOpen(Run(INITIAL, events)) && Drops(Run(INITIAL, events), drop, 0)
    ensures Feasible(Run(INITIAL, events), drop) && drop != []
    ensures var v, random := Run(Run(INITIAL, events), drop), RandomOf(drop[|drop| - 1]);
            v.reconnectAttempts == 1 && v.timers == map[t := 1000.0 * 0.75 + 1000.0 * 0.5 * random]
  {
    hide Inv, Step, Run, Feasible, CurrentOpen, Drops, Delay;
    var w := Run(INITIAL, events);
    InitialInv();
    RunKeepsInv(INITIAL, events);
    OpenMeansNoAttempts(events);
    OpenIsHolding(w);
    t := DropFromOpen(w, drop);
    DelaySpread(0, RandomOf(drop[|drop| - 1]));
    assert Pow2(0) == 1;
  }

  // ----- The connected flag -----

  /** The flag says connected, and the current socket is not open. */
  predicate Lags(w: World) {
    w.isConnected && !CurrentOpen(w)
  }

  predicate CurrentOpen(w: World) {
    w.ws.Some? && w.ws.value < |w.sockets| && w.sockets[w.ws.value].Open?
  }

  /** The open current socket starts to close, by its peer or for an oversized message. */
  predicate StartsLag(w: World, e: Event) {
    CurrentOpen(w) && SocketOf(e) == w.ws && (e.PeerStartsClosing? || (e.Message? && e.bytes > 10485760))
  }

  /** The flag is set right: by disconnect, or because the current socket opens or has closed. */
  predicate EndsLag(w: World, e: Event) {
    e.Disconnect? || ((e.SocketOpens? || e.SocketCloses?) && SocketOf(e) == w.ws)
  }

  /** The flag never misses an open socket, and exactly these events start and end its lagging behind. */
  lemma LagStep(w: World, e: Event)
    requires Inv(w) && Enabled(w, e)
    ensures CurrentOpen(w) ==> w.isConnected
    ensures Lags(Step(w, e)) <==> StartsLag(w, e) || (Lags(w) && !EndsLag(w, e))
  {
    hide Delay;
  }

  /** A new connection under a set flag: exactly when connect is called while the flag lags behind a dying socket. */
  lemma ConnectUnderFlag(w: World, random: real)
    requires Inv(w) && Enabled(w, Connect(false, random))
    ensures var v := Step(w, Connect(false, random));
            |v.sockets| > |w.sockets| && v.isConnected && v.ws.Some? && v.sockets[v.ws.value].Connecting?
            <==> w.isConnected && !HasLiveSocket(w)
  {
    hide Delay;
  }

  /** A run splits before its last event. */
  lemma {:induction false} RunBack(w: World, events: seq<Event>)
    requires Feasible(w, events) && events != []
    ensures var n := |events| - 1;
            && Feasible(w, events[..n]) && Enabled(Run(w, events[..n]), events[n])
            && Run(w, events) == Step(Run(w, events[..n]), events[n])
    decreases |events|
  {
    hide Step, Enabled;
    var n := |events| - 1;
    if n > 0 {
      RunBack(Step(w, events[0]), events[1..]);
      assert events[1..][..n - 1] == events[..n][1..];
    } else {
      assert Run(Step(w, events[0]), events[1..]) == Step(w, events[0]);
    }
  }

  /** The k-th event of the run starts a lag. */
  ghost predicate LagStartsAt(events: seq<Event>, k: nat) {
    k < |events| && Feasible(INITIAL, events[..k]) && StartsLag(Run(INITIAL, events[..k]), events[k])
  }

  ghost predicate LagEndsAt(events: seq<Event>, k: nat) {
    k < |events| && Feasible(INITIAL, events[..k]) && EndsLag(Run(INITIAL, events[..k]), events[k])
  }

  /** A lag has started at the k-th event, and no later event has ended it. */
  ghost predicate LagSince(events: seq<Event>, k: nat) {
    LagStartsAt(events, k) && forall j :: k < j < |events| ==> !LagEndsAt(events, j)
  }

  lemma LagAtFront(events: seq<Event>, n: nat, k: nat)
    requires n == |events| - 1
    ensures LagStartsAt(events[..n], k) <==> k < n && LagStartsAt(events, k)
    ensures LagEndsAt(events[..n], k) <==> k < n && LagEndsAt(events, k)
  {
    hide StartsLag, EndsLag, Run, Feasible;
    if k < n {
      assert events[..n][..k] == events[..k];
    }
  }

  /** Over whole runs: the flag is wrong exactly when a lag has started that no later event has ended. */
  lemma {:induction false} FlagLagsExactly(events: seq<Event>)
    requires Feasible(INITIAL, events)
    ensures Lags(Run(INITIAL, events)) <==> exists k :: LagSince(events, k)
    decreases |events|
  {
    if events != [] {
      hide Step, Enabled, Lags, StartsLag, EndsLag, LagStartsAt, LagEndsAt, Inv, Run, Feasible;
      var n := |events| - 1;
      RunBack(INITIAL, events);
      FlagLagsExactly(events[..n]);
      LagAtEnd(events);
      if k :| LagSince(events[..n], k) {
        LagContinues(events, k);
      }
      if k :| LagSince(events, k) {
        LagBefore(events, k);
      }
    }
  }

  lemma LagAtEnd(events: seq<Event>)
    requires Feasible(INITIAL, events) && events != []
    ensures var n := |events| - 1;
            && Feasible(INITIAL, events[..n])
            && (LagSince(events, n) <==> LagStartsAt(events, n))
            && (Lags(Run(INITIAL, events))
                <==> LagStartsAt(events, n) || (Lags(Run(INITIAL, events[..n])) && !LagEndsAt(events, n)))
  {
    hide Step, Enabled, Lags, StartsLag, EndsLag, Inv, Run, Feasible;
    var n := |events| - 1;
    RunBack(INITIAL, events);
    InitialInv();
    RunKeepsInv(INITIAL, events[..n]);
    LagStep(Run(INITIAL, events[..n]), events[n]);
  }

  lemma InitialInv()
    ensures Inv(INITIAL)
  {
  }

  lemma LagContinues(events: seq<Event>, k: nat)
    requires events != [] && LagSince(events[..|events| - 1], k)
    ensures LagSince(events, k) <==> !LagEndsAt(events, |events| - 1)
  {
    hide LagStartsAt, LagEndsAt;
    var n := |events| - 1;
    LagAtFront(events, n, k);
    forall j | k < j < n ensures !LagEndsAt(events, j) {
      LagAtFront(events, n, j);
    }
  }

  lemma LagBefore(events: seq<Event>, k: nat)
    requires LagSince(events, k)
    ensures var n := |events| - 1;
            k == n || (k < n && LagSince(events[..n], k) && !LagEndsAt(events, n))
  {
    hide LagEndsAt;
    var n := |events| - 1;
    LagAtFront(events, n, k);
    forall j | k < j < n ensures !LagEndsAt(events[..n], j) {
      LagAtFront(events, n, j);
    }
  }

  /** The flag is not the state of the current socket: reconnecting over a closing socket leaves it set. */
  lemma StaleConnectedFlag()
    ensures var events := [Connect(false, 0.0), SocketOpens(0), PeerStartsClosing(0), Connect(false, 0.0)];
            && Feasible(INITIAL, events)
            && var w := Run(INITIAL, events);
               w.isConnected && w.ws == Some(1) && w.sockets == [Closing, Connecting]
  {
    var w1 := Step(INITIAL, Connect(false, 0.0));
    assert w1.sockets == [Connecting];
    var w2 := Step(w1, SocketOpens(0));
    assert w2.sockets == [Open];
    var w3 := Step(w2, PeerStartsClosing(0));
    assert w3.sockets == [Closing];
    var w4 := Step(w3, Connect(false, 0.0));
    assert w4.sockets == [Closing, Connecting];
    var events := [Connect(false, 0.0), SocketOpens(0), PeerStartsClosing(0), Connect(false, 0.0)];
    assert events[1..][1..][1..][1..] == [];
    assert Feasible(w3, events[1..][1..][1..]);
    assert Feasible(w2, events[1..][1..]);
    assert Feasible(w1, events[1..]);
    assert Run(w3, events[1..][1..][1..]) == w4;
    assert Run(w2, events[1..][1..]) == w4;
    assert Run(w1, events[1..]) == w4;
  }
}
