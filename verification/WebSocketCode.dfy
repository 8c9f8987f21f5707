/** The class `WebSocketClient` with its fields and handlers, each proved to take the step of `WebSocketModel`. */
module WebSocketCode {
  import opened Options
  import opened Arith
  import opened WebSocketModel

  /** The part of the browser a client can reach: its sockets and pending timers. */
  class Browser {
    var sockets: seq<ReadyState>
    var timers: map<nat, real>
    var nextTimer: nat

    constructor ()
      ensures sockets == [] && timers == map[] && nextTimer == 0
    {
      sockets, timers, nextTimer := [], map[], 0;
    }

    /** `new WebSocket(url)` */
    method NewSocket() returns (socket: nat)
      modifies this`sockets
      ensures socket == |old(sockets)| && sockets == old(sockets) + [Connecting]
    {
      socket := |sockets|;
      sockets := sockets + [Connecting];
    }

    method CloseSocket(socket: nat)
      requires socket < |sockets|
      modifies this`sockets
      ensures sockets == Close(old(sockets), socket)
    {
      if sockets[socket].Connecting? || sockets[socket].Open? {
        sockets := sockets[socket := Closing];
      }
    }

    /** `setTimeout` */
    method SetTimeout(delay: real) returns (timer: nat)
      modifies this`timers, this`nextTimer
      ensures timer == old(nextTimer) && nextTimer == old(nextTimer) + 1
      ensures timers == old(timers)[timer := delay]
    {
      timer := nextTimer;
      nextTimer := nextTimer + 1;
      timers := timers[timer := delay];
    }

    method ClearTimeout(timer: nat)
      modifies this`timers
      ensures timers == old(timers) - {timer}
    {
      timers := timers - {timer};
    }
  }

  class WebSocketClient {
    const browser: Browser
    var reconnectAttempts: nat
    var isConnected: bool
    var ws: Option<nat>
    var shouldReconnect: bool
    var reconnectTimer: Option<nat>

    constructor (b: Browser)
      requires b.sockets == [] && b.timers == map[] && b.nextTimer == 0
      ensures browser == b && State() == INITIAL
    {
      browser := b;
      reconnectAttempts, isConnected, ws, shouldReconnect, reconnectTimer := 0, false, None, true, None;
    }

    function State(): World
      reads this, browser
    {
      World(ws, shouldReconnect, reconnectTimer, reconnectAttempts, isConnected,
            browser.sockets, browser.timers, browser.nextTimer)
    }

    method DoConnect(throws: bool, random: real)
      requires Enabled(State(), Connect(throws, random))
      modifies this, browser
      ensures State() == Step(old(State()), Connect(throws, random))
    {
      if ws.Some? && ws.value < |browser.sockets|
         && (browser.sockets[ws.value].Open? || browser.sockets[ws.value].Connecting?) {
        return;
      }
      shouldReconnect := true;
      CancelTimer();
      OpenNewSocket(throws, random);
    }

    method DoDisconnect()
      requires Inv(State())
      modifies this, browser
      ensures State() == Step(old(State()), Disconnect)
    {
      shouldReconnect := false;
      CancelTimer();
      reconnectAttempts := 0;
      if ws.Some? {
        browser.CloseSocket(ws.value);
        ws := None;
      }
      isConnected := false;
    }

    method OpenNewSocket(throws: bool, random: real)
      modifies this, browser
      ensures State() == OpenSocket(old(State()), throws, random)
    {
      if throws {
        Schedule(random);
        return;
      }
      var socket := browser.NewSocket();
      ws := Some(socket);
    }

    /** The open handler, run when the browser opens a socket. */
    method OnOpen(socket: nat)
      requires Enabled(State(), SocketOpens(socket))
      modifies this, browser
      ensures State() == Step(old(State()), SocketOpens(socket))
    {
      browser.sockets := browser.sockets[socket := Open];
      if ws != Some(socket) {
        return;
      }
      isConnected := true;
      reconnectAttempts := 0;
    }

    /** The message handler; bytes is the size of a text payload. */
    method OnMessage(socket: nat, bytes: nat)
      requires Enabled(State(), Message(socket, bytes))
      modifies this, browser
      ensures State() == Step(old(State()), Message(socket, bytes))
    {
      if ws != Some(socket) {
        return;
      }
      if bytes > MAX_PAYLOAD_BYTES {
        browser.CloseSocket(socket);
      }
    }

    /** The close handler, run when a socket reaches its final state. */
    method OnClose(socket: nat, random: real)
      requires Enabled(State(), SocketCloses(socket, random))
      modifies this, browser
      ensures State() == Step(old(State()), SocketCloses(socket, random))
    {
      browser.sockets := browser.sockets[socket := Closed];
      if ws != Some(socket) {
        return;
      }
      isConnected := false;
      ws := None;
      if shouldReconnect {
        Schedule(random);
      }
    }

    /** The timer callback, run when the browser fires a pending timer. */
    method OnTimer(timer: nat, throws: bool, random: real)
      requires Enabled(State(), TimerFires(timer, throws, random))
      modifies this, browser
      ensures State() == Step(old(State()), TimerFires(timer, throws, random))
    {
      browser.timers := browser.timers - {timer};
      reconnectTimer := None;
      if !shouldReconnect {
        return;
      }
      OpenNewSocket(throws, random);
    }

    method Schedule(random: real)
      modifies this, browser
      ensures State() == ScheduleReconnect(old(State()), random)
    {
      if !shouldReconnect {
        return;
      }
      CancelTimer();
      var base: nat;
      ghost var attempts := reconnectAttempts;
      if reconnectAttempts < MAX_RECONNECT_ATTEMPTS {
        reconnectAttempts := reconnectAttempts + 1;
        var exp := BASE_RECONNECT_MS * Pow2(reconnectAttempts - 1);
        base := if MAX_RECONNECT_MS < exp then MAX_RECONNECT_MS else exp;
      } else {
        base := SLOW_RETRY_MS;
      }
      assert base == BaseDelay(attempts);
      var delay := base as real * (0.75 + random * 0.5);
      var timer := browser.SetTimeout(delay);
      reconnectTimer := Some(timer);
    }

    method CancelTimer()
      modifies this, browser
      ensures State() == CancelReconnect(old(State()))
    {
      if reconnectTimer.Some? {
        browser.ClearTimeout(reconnectTimer.value);
        reconnectTimer := None;
      }
    }
  }
}
