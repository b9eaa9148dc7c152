// The connection lifecycle of the chat client (`DouyuDanmaku`): starting,
// the socket's open/close/message handlers, the heartbeat interval, the
// reconnect timeout and stopping, as a pure transition function. Sockets
// and timers are named by the handles the environment hands out; the
// effects a transition asks of the environment are returned in order.

module Connection {
  import opened Wrappers
  import opened Binary
  import opened Message

  const SERVER_URL: string := "wss://danmuproxy.douyu.com:8506"
  /** Heartbeat period and reconnect delay, in milliseconds. */
  const HEARTBEAT_MS: int := 45 * 1000
  const RECONNECT_MS: int := 3000
  /** The reason handed to `onClose` when the server drops the connection. */
  const CLOSE_REASON: string := "与服务器断开连接，正在尝试重连"
  const HEARTBEAT_BODY: string := "type@=mrkl/"

  /** The login request for a room. */
  function LoginBody(roomId: string): string {
    "type@=loginreq/roomid@=" + roomId + "/"
  }

  /** The request to join the room's message group. */
  function JoinBody(roomId: string): string {
    "type@=joingroup/rid@=" + roomId + "/gid@=-9999/"
  }

  /** `WebSocket.readyState` */
  datatype SocketState = Connecting | Open | Closing | Closed

  /** `DanmakuCallbacks`: each handler present or not, named by an id. */
  datatype Callbacks = Callbacks(onMessage: Option<nat>, onClose: Option<nat>, onReady: Option<nat>)

  const NO_CALLBACKS: Callbacks := Callbacks(None, None, None)

  /** The client's fields, plus what the environment knows: the state of
      every socket created so far, the live interval and timeout handles,
      and the next fresh handle. */
  datatype Conn = Conn(
    ws: Option<nat>,
    sockets: map<nat, SocketState>,
    heartbeat: Option<nat>,
    reconnect: Option<nat>,
    intervals: set<nat>,
    timeouts: set<nat>,
    roomId: string,
    callbacks: Callbacks,
    connecting: bool,
    manualClose: bool,
    next: nat)

  /** What a transition asks of the environment. A `Send` carries the body
      the frame is serialized from. */
  datatype Effect =
    | OpenSocket(socket: nat, url: string)
    | CloseSocket(socket: nat)
    | Send(socket: nat, body: string)
    | SetInterval(timer: nat, ms: int)
    | ClearInterval(timer: nat)
    | SetTimeout(timer: nat, ms: int)
    | ClearTimeout(timer: nat)
    | CallReady(handler: nat)
    | CallClose(handler: nat, reason: string)
    | CallMessage(handler: nat, msg: LiveMessage)

  datatype Out = Out(conn: Conn, effects: seq<Effect>)

  /** Calls of the public methods, and what the socket and timers deliver. */
  datatype Event =
    | SetCallbacks(update: Callbacks)
    | Start(room: string)
    | Stop
    | SocketOpened(socket: nat)
    | SocketClosing(socket: nat)
    | SocketClosed(socket: nat)
    | SocketMessage(socket: nat, data: seq<byte>)
    | SocketError(socket: nat)
    | HeartbeatFired(timer: nat)
    | ReconnectFired(timer: nat)

  /** A fresh client. */
  const INITIAL: Conn := Conn(None, map[], None, None, {}, {}, "", NO_CALLBACKS, false, false, 0)

  function HandleSet(h: Option<nat>): set<nat> {
    if h.Some? then {h.value} else {}
  }

  // ---------------------------------------------------------------------
  // The client's methods

  /** `setCallbacks(callbacks)`: each handler given replaces the current
      one; the others stay. */
  function SetCallbacksOf(c: Conn, update: Callbacks): (r: Out)
    ensures r.effects == [] && r.conn == c.(callbacks := r.conn.callbacks)
    ensures update.onMessage.Some? ==> r.conn.callbacks.onMessage == update.onMessage
    ensures update.onMessage.None? ==> r.conn.callbacks.onMessage == c.callbacks.onMessage
    ensures update.onClose.Some? ==> r.conn.callbacks.onClose == update.onClose
    ensures update.onClose.None? ==> r.conn.callbacks.onClose == c.callbacks.onClose
    ensures update.onReady.Some? ==> r.conn.callbacks.onReady == update.onReady
    ensures update.onReady.None? ==> r.conn.callbacks.onReady == c.callbacks.onReady
  {
    var cur := c.callbacks;
    Out(c.(callbacks := Callbacks(
      if update.onMessage.Some? then update.onMessage else cur.onMessage,
      if update.onClose.Some? then update.onClose else cur.onClose,
      if update.onReady.Some? then update.onReady else cur.onReady)), [])
  }

  /** `connect()`: nothing while a connection attempt is under way;
      otherwise a new socket becomes the current one. The socket it
      replaces is not closed. */
  function Connect(c: Conn): (r: Out)
    ensures c.connecting ==> r == Out(c, [])
    ensures !c.connecting ==>
      r.conn.connecting && r.conn.ws == Some(c.next) && r.conn.next == c.next + 1
      && r.conn.sockets == c.sockets[c.next := Connecting] && r.effects == [OpenSocket(c.next, SERVER_URL)]
  {
    if c.connecting then Out(c, [])
    else
      var id := c.next;
      Out(c.(connecting := true, ws := Some(id), sockets := c.sockets[id := Connecting], next := id + 1),
        [OpenSocket(id, SERVER_URL)])
  }

  /** `start(roomId)`: the room is remembered and the stop flag cleared
      before connecting. */
  function StartOf(c: Conn, room: string): (r: Out)
    ensures !r.conn.manualClose && r.conn.roomId == room
    ensures c.connecting ==> r.effects == [] && r.conn == c.(roomId := room, manualClose := false)
    ensures !c.connecting ==>
      r.conn.connecting && r.conn.ws == Some(c.next) && r.effects == [OpenSocket(c.next, SERVER_URL)]
    ensures r.conn.callbacks == c.callbacks && r.conn.heartbeat == c.heartbeat && r.conn.reconnect == c.reconnect
  {
    Connect(c.(roomId := room, manualClose := false))
  }

  /** `sendMessage(data)`: a frame goes out only on a current socket that is
      open. */
  function SendMessage(c: Conn, body: string): (effects: seq<Effect>)
    ensures |effects| <= 1
    ensures effects != [] <==> c.ws.Some? && c.ws.value in c.sockets && c.sockets[c.ws.value] == Open
    ensures effects != [] ==> effects == [Send(c.ws.value, body)]
  {
    if c.ws.Some? && c.ws.value in c.sockets && c.sockets[c.ws.value] == Open then [Send(c.ws.value, body)]
    else []
  }

  /** `stopHeartbeat()` */
  function StopHeartbeat(c: Conn): (r: Out)
    ensures r.conn.heartbeat == None
    ensures r.conn == c.(heartbeat := None, intervals := r.conn.intervals)
    ensures r.conn.intervals == c.intervals - HandleSet(c.heartbeat)
  {
    match c.heartbeat
    case Some(h) => Out(c.(heartbeat := None, intervals := c.intervals - {h}), [ClearInterval(h)])
    case None => Out(c, [])
  }

  /** `startHeartbeat()`: the old interval is cleared before the new one is
      set. */
  function StartHeartbeat(c: Conn): (r: Out)
    ensures r.conn.heartbeat == Some(c.next) && r.conn.next == c.next + 1
    ensures r.conn.intervals == c.intervals - HandleSet(c.heartbeat) + {c.next}
  {
    var s := StopHeartbeat(c);
    var h := s.conn.next;
    Out(s.conn.(heartbeat := Some(h), intervals := s.conn.intervals + {h}, next := h + 1),
      s.effects + [SetInterval(h, HEARTBEAT_MS)])
  }

  /** `stopReconnect()` */
  function StopReconnect(c: Conn): (r: Out)
    ensures r.conn.reconnect == None
    ensures r.conn == c.(reconnect := None, timeouts := r.conn.timeouts)
    ensures r.conn.timeouts == c.timeouts - HandleSet(c.reconnect)
  {
    match c.reconnect
    case Some(h) => Out(c.(reconnect := None, timeouts := c.timeouts - {h}), [ClearTimeout(h)])
    case None => Out(c, [])
  }

  /** `scheduleReconnect()`: any pending reconnect is cancelled first. */
  function ScheduleReconnect(c: Conn): (r: Out)
    ensures r.conn.reconnect == Some(c.next) && r.conn.next == c.next + 1
    ensures r.conn.timeouts == c.timeouts - HandleSet(c.reconnect) + {c.next}
  {
    var s := StopReconnect(c);
    var h := s.conn.next;
    Out(s.conn.(reconnect := Some(h), timeouts := s.conn.timeouts + {h}, next := h + 1),
      s.effects + [SetTimeout(h, RECONNECT_MS)])
  }

  function SetSocket(sockets: map<nat, SocketState>, id: nat, st: SocketState): map<nat, SocketState> {
    if id in sockets then sockets[id := st] else sockets
  }

  /** `ws.onopen`: the attempt is over, `onReady` is called, the login and
      join requests go out and the heartbeat starts. */
  function OnOpen(c: Conn, id: nat): (r: Out)
    ensures !r.conn.connecting
    ensures id in c.sockets ==> id in r.conn.sockets && r.conn.sockets[id] == Open
    ensures r.conn.sockets.Keys == c.sockets.Keys
    ensures r.conn.heartbeat == Some(c.next) && r.conn.next == c.next + 1
    ensures r.conn.intervals == c.intervals - HandleSet(c.heartbeat) + {c.next}
    ensures r.conn.ws == c.ws && r.conn.reconnect == c.reconnect && r.conn.manualClose == c.manualClose
    ensures c.callbacks.onReady.Some? ==> |r.effects| > 0 && r.effects[0] == CallReady(c.callbacks.onReady.value)
    ensures |r.effects| > 0 && r.effects[|r.effects| - 1] == SetInterval(c.next, HEARTBEAT_MS)
  {
    var c1 := c.(connecting := false, sockets := SetSocket(c.sockets, id, Open));
    var ready := if c1.callbacks.onReady.Some? then [CallReady(c1.callbacks.onReady.value)] else [];
    var join := SendMessage(c1, LoginBody(c1.roomId)) + SendMessage(c1, JoinBody(c1.roomId));
    var hb := StartHeartbeat(c1);
    Out(hb.conn, ready + join + hb.effects)
  }

  /** The server starts the closing handshake: an open socket's
      `readyState` turns CLOSING before its `close` event arrives. The
      client has no handler for this, so nothing else changes. */
  function OnClosing(c: Conn, id: nat): (r: Out)
    ensures r.effects == [] && r.conn == c.(sockets := r.conn.sockets)
    ensures r.conn.sockets.Keys == c.sockets.Keys
    ensures id in c.sockets && c.sockets[id] == Open ==> r.conn.sockets == c.sockets[id := Closing]
    ensures !(id in c.sockets && c.sockets[id] == Open) ==> r.conn.sockets == c.sockets
  {
    if id in c.sockets && c.sockets[id] == Open then Out(c.(sockets := c.sockets[id := Closing]), [])
    else Out(c, [])
  }

  /** `ws.onclose`: the heartbeat stops; unless the client was stopped,
      `onClose` is told and a reconnect is scheduled. */
  function OnClose(c: Conn, id: nat): (r: Out)
    ensures !r.conn.connecting && r.conn.heartbeat == None
    ensures r.conn.intervals == c.intervals - HandleSet(c.heartbeat)
    ensures id in c.sockets ==> id in r.conn.sockets && r.conn.sockets[id] == Closed
    ensures r.conn.ws == c.ws && r.conn.manualClose == c.manualClose
    ensures c.manualClose ==> r.conn.reconnect == c.reconnect && r.conn.timeouts == c.timeouts
    ensures !c.manualClose ==>
      r.conn.reconnect == Some(c.next) && r.conn.timeouts == c.timeouts - HandleSet(c.reconnect) + {c.next}
  {
    var c1 := c.(connecting := false, sockets := SetSocket(c.sockets, id, Closed));
    var hb := StopHeartbeat(c1);
    if c1.manualClose then hb
    else
      var told := if c1.callbacks.onClose.Some? then [CallClose(c1.callbacks.onClose.value, CLOSE_REASON)] else [];
      var rc := ScheduleReconnect(hb.conn);
      Out(rc.conn, hb.effects + told + rc.effects)
  }

  /** `ws.onmessage`: a chat message goes to `onMessage`, if set. */
  function OnMessage(c: Conn, data: seq<byte>): (r: Out)
    ensures r.conn == c && |r.effects| <= 1
  {
    match DecodeMessage(data)
    case Some(msg) =>
      if c.callbacks.onMessage.Some? then Out(c, [CallMessage(c.callbacks.onMessage.value, msg)]) else Out(c, [])
    case None => Out(c, [])
  }

  /** The reconnect timeout: the handle is spent, and a connection is
      attempted unless the client was stopped meanwhile. The client does
      not forget the spent handle. */
  function OnReconnect(c: Conn, h: nat): (r: Out)
    ensures h !in r.conn.timeouts && r.conn.reconnect == c.reconnect
    ensures c.manualClose ==> r.effects == []
    ensures !c.manualClose && !c.connecting ==>
      r.conn.ws == Some(c.next) && r.effects == [OpenSocket(c.next, SERVER_URL)]
  {
    var c1 := c.(timeouts := c.timeouts - {h});
    if !c1.manualClose then Connect(c1) else Out(c1, [])
  }

  /** `stop()`: stopped, both timers cleared, the current socket closed
      and forgotten, and every handler dropped. */
  function StopOf(c: Conn): (r: Out)
    ensures r.conn.manualClose && r.conn.ws == None && r.conn.callbacks == NO_CALLBACKS
    ensures r.conn.heartbeat == None && r.conn.intervals == c.intervals - HandleSet(c.heartbeat)
    ensures r.conn.reconnect == None && r.conn.timeouts == c.timeouts - HandleSet(c.reconnect)
    ensures c.ws.Some? ==> CloseSocket(c.ws.value) in r.effects
    ensures c.ws.Some? ==> forall i :: 0 <= i < |r.effects| && r.effects[i].CloseSocket? ==>
      r.effects[i].socket == c.ws.value
    ensures c.ws.None? ==> forall i :: 0 <= i < |r.effects| ==> !r.effects[i].CloseSocket?
    ensures c.ws.Some? && c.ws.value in c.sockets && c.sockets[c.ws.value] in {Connecting, Open} ==>
      c.ws.value in r.conn.sockets && r.conn.sockets[c.ws.value] == Closing
  {
    var c1 := c.(manualClose := true);
    var hb := StopHeartbeat(c1);
    var rc := StopReconnect(hb.conn);
    var c2 := rc.conn;
    match c2.ws
    case Some(id) =>
      var closing := if id in c2.sockets && c2.sockets[id] in {Connecting, Open}
        then c2.sockets[id := Closing] else c2.sockets;
      Out(c2.(ws := None, sockets := closing, callbacks := NO_CALLBACKS), hb.effects + rc.effects + [CloseSocket(id)])
    case None =>
      Out(c2.(callbacks := NO_CALLBACKS), hb.effects + rc.effects)
  }

  /** One event. Handles are never reused, no socket is forgotten, and
      only `start` clears the stop flag. */
  function Step(c: Conn, e: Event): (r: Out)
    ensures r.conn.next >= c.next
    ensures c.sockets.Keys <= r.conn.sockets.Keys
    ensures e.Stop? ==> r.conn.manualClose
    ensures !e.Start? && c.manualClose ==> r.conn.manualClose
  {
    match e
    case SetCallbacks(u) => SetCallbacksOf(c, u)
    case Start(room) => StartOf(c, room)
    case Stop => StopOf(c)
    case SocketOpened(id) => OnOpen(c, id)
    case SocketClosing(id) => OnClosing(c, id)
    case SocketClosed(id) => OnClose(c, id)
    case SocketMessage(_, data) => OnMessage(c, data)
    case SocketError(_) => Out(c, [])
    case HeartbeatFired(_) => Out(c, SendMessage(c, HEARTBEAT_BODY))
    case ReconnectFired(h) => OnReconnect(c, h)
  }

  /** The events the environment can deliver: a socket opens once while
      connecting, may start closing while open, closes once, delivers
      messages only while open; a timer fires only while its handle is
      live. */
  predicate Enabled(c: Conn, e: Event) {
    match e
    case SocketOpened(id) => id in c.sockets && c.sockets[id] == Connecting
    case SocketClosing(id) => id in c.sockets && c.sockets[id] == Open
    case SocketClosed(id) => id in c.sockets && c.sockets[id] != Closed
    case SocketMessage(id, _) => id in c.sockets && c.sockets[id] == Open
    case SocketError(id) => id in c.sockets && c.sockets[id] != Closed
    case HeartbeatFired(h) => h in c.intervals
    case ReconnectFired(h) => h in c.timeouts
    case _ => true
  }

  // ---------------------------------------------------------------------
  // The invariant

  /** Handles are fresh below `next`; the current socket is known; exactly
      the current heartbeat interval is live; the only live timeout, if
      any, is the current reconnect. */
  predicate Inv(c: Conn) {
    (forall id :: id in c.sockets ==> id < c.next)
    && (c.ws.Some? ==> c.ws.value in c.sockets)
    && (c.heartbeat.Some? ==> c.heartbeat.value < c.next)
    && (c.reconnect.Some? ==> c.reconnect.value < c.next)
    && c.intervals == HandleSet(c.heartbeat)
    && c.timeouts <= HandleSet(c.reconnect)
  }

  lemma InitialInv()
    ensures Inv(INITIAL)
  {
  }

  lemma OpenInv(c: Conn, id: nat)
    requires Inv(c)
    ensures Inv(OnOpen(c, id).conn)
  {
    var c1 := c.(connecting := false, sockets := SetSocket(c.sockets, id, Open));
    assert Inv(c1);
  }

  lemma CloseInv(c: Conn, id: nat)
    requires Inv(c)
    ensures Inv(OnClose(c, id).conn)
  {
    var c1 := c.(connecting := false, sockets := SetSocket(c.sockets, id, SocketState.Closed));
    assert Inv(c1);
  }

  lemma StopInv(c: Conn)
    requires Inv(c)
    ensures Inv(StopOf(c).conn)
  {
  }

  lemma ReconnectInv(c: Conn, h: nat)
    requires Inv(c)
    ensures Inv(OnReconnect(c, h).conn)
  {
  }

  /** Every event the environment can deliver keeps the invariant. */
  lemma StepInv(c: Conn, e: Event)
    requires Inv(c) && Enabled(c, e)
    ensures Inv(Step(c, e).conn)
  {
    match e
    case SocketOpened(id) => OpenInv(c, id);
    case SocketClosed(id) => CloseInv(c, id);
    case Stop => StopInv(c);
    case ReconnectFired(h) => ReconnectInv(c, h);
    case _ =>
  }

  /** The client after a run of events, and the effects in order. */
  function Run(c: Conn, es: seq<Event>): (r: Out)
    decreases |es|
  {
    if |es| == 0 then Out(c, [])
    else
      var first := Step(c, es[0]);
      var rest := Run(first.conn, es[1..]);
      Out(rest.conn, first.effects + rest.effects)
  }

  /** Each event enabled when it arrives. */
  predicate Admissible(c: Conn, es: seq<Event>)
    decreases |es|
  {
    |es| == 0 || (Enabled(c, es[0]) && Admissible(Step(c, es[0]).conn, es[1..]))
  }

  /** The invariant holds after every admissible run from a fresh client. */
  lemma {:induction false} RunInv(c: Conn, es: seq<Event>)
    requires Inv(c) && Admissible(c, es)
    ensures Inv(Run(c, es).conn)
    decreases |es|
  {
    if |es| > 0 {
      StepInv(c, es[0]);
      RunInv(Step(c, es[0]).conn, es[1..]);
    }
  }

  // ---------------------------------------------------------------------
  // Single transitions

  /** Clearing the heartbeat interval, if one is set. */
  function HeartbeatClear(c: Conn): seq<Effect> {
    if c.heartbeat.Some? then [ClearInterval(c.heartbeat.value)] else []
  }

  /** Clearing the reconnect timeout, if one is set. */
  function ReconnectClear(c: Conn): seq<Effect> {
    if c.reconnect.Some? then [ClearTimeout(c.reconnect.value)] else []
  }

  /** On open of the current socket: the attempt is over, `onReady` (if
      set) is called first, then the login and the join request go out on
      that socket, and exactly one heartbeat interval is live. */
  lemma OpenedJoinsRoom(c: Conn, id: nat)
    requires Inv(c) && c.ws == Some(id) && Enabled(c, SocketOpened(id))
    ensures var r := Step(c, SocketOpened(id));
      var ready := if c.callbacks.onReady.Some? then [CallReady(c.callbacks.onReady.value)] else [];
      !r.conn.connecting
      && r.effects == ready + [Send(id, LoginBody(c.roomId)), Send(id, JoinBody(c.roomId))]
        + HeartbeatClear(c) + [SetInterval(c.next, HEARTBEAT_MS)]
      && r.conn.heartbeat == Some(c.next) && r.conn.intervals == {c.next}
  {
  }

  /** Every frame any event sends goes out on the current socket, and that
      socket is open. */
  lemma SendsOnlyWhenOpen(c: Conn, e: Event)
    ensures var r := Step(c, e);
      forall i :: 0 <= i < |r.effects| && r.effects[i].Send? ==>
        r.conn.ws == Some(r.effects[i].socket) && r.effects[i].socket in r.conn.sockets
        && r.conn.sockets[r.effects[i].socket] == Open
  {
    match e
    case SocketOpened(id) => OpenSends(c, id);
    case _ =>
  }

  lemma OpenSends(c: Conn, id: nat)
    ensures var r := OnOpen(c, id);
      forall i :: 0 <= i < |r.effects| && r.effects[i].Send? ==>
        r.conn.ws == Some(r.effects[i].socket) && r.effects[i].socket in r.conn.sockets
        && r.conn.sockets[r.effects[i].socket] == Open
  {
    var c1 := c.(connecting := false, sockets := SetSocket(c.sockets, id, Open));
    var hb := StartHeartbeat(c1);
    assert hb.conn.ws == c1.ws && hb.conn.sockets == c1.sockets;
    assert forall i :: 0 <= i < |hb.effects| ==> !hb.effects[i].Send?;
  }

  /** Once the server has started closing the current socket, a heartbeat
      tick sends nothing, because the socket is no longer OPEN. */
  lemma NoHeartbeatWhileClosing(c: Conn, id: nat, h: nat)
    requires c.ws == Some(id) && id in c.sockets && c.sockets[id] == Open
    ensures var closing := Step(c, SocketClosing(id)).conn;
      Enabled(c, SocketClosing(id)) && Step(closing, HeartbeatFired(h)).effects == []
  {
    var closing := Step(c, SocketClosing(id)).conn;
    assert closing.sockets[id] == Closing;
  }

  /** When the connection drops and the client was not stopped: the
      heartbeat is gone, `onClose` is told once, and exactly one reconnect
      is pending, any earlier one cancelled. */
  lemma ClosedSchedulesReconnect(c: Conn, id: nat)
    requires Inv(c) && !c.manualClose
    ensures var r := Step(c, SocketClosed(id));
      var told := if c.callbacks.onClose.Some? then [CallClose(c.callbacks.onClose.value, CLOSE_REASON)] else [];
      r.conn.heartbeat == None && r.conn.intervals == {}
      && r.conn.reconnect == Some(c.next) && r.conn.timeouts == {c.next}
      && !r.conn.connecting
      && r.effects == HeartbeatClear(c) + told + ReconnectClear(c) + [SetTimeout(c.next, RECONNECT_MS)]
  {
    var hb := StopHeartbeat(c.(connecting := false, sockets := SetSocket(c.sockets, id, SocketState.Closed)));
    assert hb.effects == HeartbeatClear(c);
    assert StopReconnect(hb.conn).effects == ReconnectClear(c);
  }

  /** When the client was stopped, a drop tells nobody and schedules
      nothing. */
  lemma ClosedAfterStop(c: Conn, id: nat)
    requires Inv(c) && c.manualClose
    ensures var r := Step(c, SocketClosed(id));
      r.conn.reconnect == c.reconnect && r.conn.timeouts == c.timeouts
      && forall i :: 0 <= i < |r.effects| ==> r.effects[i].ClearInterval?
  {
  }

  /** A reconnect that fires reconnects only if the client was not stopped
      meanwhile, and not while an attempt is under way. */
  lemma ReconnectOnlyIfNotStopped(c: Conn, h: nat)
    ensures var r := Step(c, ReconnectFired(h));
      (exists i :: 0 <= i < |r.effects| && r.effects[i].OpenSocket?) <==> !c.manualClose && !c.connecting
  {
    var r := Step(c, ReconnectFired(h));
    if !c.manualClose && !c.connecting {
      assert r.effects[0].OpenSocket?;
    }
  }

  /** `stop()`: stopped, no timers, no current socket, no handlers; the
      socket it had is closed. */
  lemma StopClears(c: Conn)
    requires Inv(c)
    ensures var r := Step(c, Stop);
      r.conn.manualClose && r.conn.heartbeat == None && r.conn.reconnect == None
      && r.conn.intervals == {} && r.conn.timeouts == {}
      && r.conn.ws == None && r.conn.callbacks == NO_CALLBACKS
      && r.effects == HeartbeatClear(c) + ReconnectClear(c) + (if c.ws.Some? then [CloseSocket(c.ws.value)] else [])
  {
  }

  /** Stopping twice is stopping once: the second stop changes nothing and
      asks for nothing. */
  lemma StopIdempotent(c: Conn)
    requires Inv(c)
    ensures var once := Step(c, Stop).conn;
      Step(once, Stop) == Out(once, [])
  {
  }

  /** `start(roomId)` clears the stop flag and, unless an attempt is under
      way, opens one new socket for the room. */
  lemma StartConnects(c: Conn, room: string)
    requires Inv(c)
    ensures var r := Step(c, Start(room));
      !r.conn.manualClose && r.conn.roomId == room
      && (c.connecting ==> r.effects == [])
      && (!c.connecting ==>
            r.effects == [OpenSocket(c.next, SERVER_URL)] && r.conn.ws == Some(c.next)
            && r.conn.sockets == c.sockets[c.next := Connecting])
  {
  }

  /** A received frame reaches `onMessage` exactly when it decodes to a
      chat message and the handler is set; nothing else changes. */
  lemma ReceivedDelivers(c: Conn, id: nat, data: seq<byte>)
    ensures var r := Step(c, SocketMessage(id, data));
      r.conn == c
      && (r.effects != [] <==> DecodeMessage(data).Some? && c.callbacks.onMessage.Some?)
      && (r.effects != [] ==> r.effects == [CallMessage(c.callbacks.onMessage.value, DecodeMessage(data).value)])
  {
  }
}
